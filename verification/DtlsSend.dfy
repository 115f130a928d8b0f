/** Sending handshake messages in d1_both.cc: a flight, cut into fragments that fill packets. */
module DtlsSend {
  import opened Bytes
  import opened Ssl
  import opened DtlsMessage
  import opened DtlsRecord

  const kMinMTU: nat := 256 - 28
  const kDefaultMTU: nat := 1500 - 28

  /** DTLS_OUTGOING_MESSAGE */
  datatype Outgoing = Outgoing(data: seq<byte>, epoch: uint16, isCcs: bool)

  /** The message serialized as a single fragment, as seal_next_message insists. */
  function Whole(o: Outgoing): (m: Option<Message>)
    ensures m.Some? ==> |m.value.body| < 0x100_0000
  {
    match ParseFragment(o.data)
    case Fail => None
    case Got(f, rest) =>
      if f.header.fragOff != 0 || f.header.msgLen != |f.body| || rest != [] then None
      else Some(Message(f.header.typ, f.header.seqno, f.body))
  }

  lemma {:induction false} WholeOfRaw(m: Message, epoch: uint16)
    requires |m.body| < 0x100_0000
    ensures Whole(Outgoing(Raw(m), epoch, false)) == Some(m)
  {
    FragmentRoundTrip(Fragment(WholeHeader(m), m.body), []);
    assert Raw(m) + [] == Raw(m);
  }

  function BodyLen(o: Outgoing): (n: nat)
    ensures n < 0x100_0000
  {
    if o.isCcs || Whole(o).None? then 0 else |Whole(o).value.body|
  }

  // ---- tiling ----

  /** outgoing_written and outgoing_offset */
  datatype Cursor = Cursor(written: nat, offset: nat)

  /** The part of a message that one record carries. */
  datatype Piece = Piece(index: nat, off: nat, len: nat)

  function Past(msgs: seq<Outgoing>, c: Cursor, len: nat): Cursor
    requires c.written < |msgs|
  {
    if c.offset + len < BodyLen(msgs[c.written]) then Cursor(c.written, c.offset + len) else Cursor(c.written + 1, 0)
  }

  /** A piece that starts at the cursor, and holds nothing only if the message does. */
  predicate Fits(msgs: seq<Outgoing>, c: Cursor, p: Piece) {
    && c.written < |msgs| && p.index == c.written && p.off == c.offset
    && p.off + p.len <= BodyLen(msgs[c.written]) && (p.len > 0 || BodyLen(msgs[c.written]) == 0)
  }

  lemma {:induction false} PartFits(msgs: seq<Outgoing>, c: Cursor, n: nat)
    requires c.written < |msgs| && c.offset + n <= BodyLen(msgs[c.written]) && (n > 0 || BodyLen(msgs[c.written]) == 0)
    ensures Fits(msgs, c, Piece(c.written, c.offset, n))
    ensures Past(msgs, c, n) == if c.offset + n < BodyLen(msgs[c.written]) then Cursor(c.written, c.offset + n)
      else Cursor(c.written + 1, 0)
  {
  }

  /** Where pieces laid end to end from a cursor leave it; nothing if they do not fit together. */
  function Reach(msgs: seq<Outgoing>, from: Cursor, pieces: seq<Piece>): Option<Cursor> {
    if pieces == [] then Some(from)
    else
      match Reach(msgs, from, pieces[..|pieces| - 1])
      case None => None
      case Some(c) => if Fits(msgs, c, pieces[|pieces| - 1]) then Some(Past(msgs, c, pieces[|pieces| - 1].len))
        else None
  }

  lemma {:induction false} ReachOne(msgs: seq<Outgoing>, from: Cursor, pieces: seq<Piece>, p: Piece)
    ensures Reach(msgs, from, pieces + [p]) ==
      match Reach(msgs, from, pieces)
      case None => None
      case Some(c) => if Fits(msgs, c, p) then Some(Past(msgs, c, p.len)) else None
  {
    assert (pieces + [p])[..|pieces|] == pieces;
  }

  lemma {:induction false} ReachAppend(msgs: seq<Outgoing>, from: Cursor, p: seq<Piece>, q: seq<Piece>)
    ensures Reach(msgs, from, p + q) ==
      match Reach(msgs, from, p)
      case None => None
      case Some(c) => Reach(msgs, c, q)
  {
    if q == [] {
      assert p + q == p;
    } else {
      assert (p + q)[..|p + q| - 1] == p + q[..|q| - 1];
      ReachAppend(msgs, from, p, q[..|q| - 1]);
    }
  }

  /** The bytes of message i that the pieces carry, in order. */
  function Gathered(msgs: seq<Outgoing>, pieces: seq<Piece>, i: nat): seq<byte>
    requires i < |msgs| && Whole(msgs[i]).Some?
  {
    if pieces == [] then []
    else
      var p := pieces[|pieces| - 1];
      Gathered(msgs, pieces[..|pieces| - 1], i) +
      if p.index == i && p.off + p.len <= |Whole(msgs[i]).value.body| then
        Whole(msgs[i]).value.body[p.off..p.off + p.len] else []
  }

  /** Pieces laid from the start of the flight carry each message up to the cursor, without gap or overlap. */
  lemma {:induction false} PiecesTile(msgs: seq<Outgoing>, pieces: seq<Piece>, i: nat)
    requires Reach(msgs, Cursor(0, 0), pieces).Some?
    requires i < |msgs| && !msgs[i].isCcs && Whole(msgs[i]).Some?
    ensures var c, body := Reach(msgs, Cursor(0, 0), pieces).value, Whole(msgs[i]).value.body;
      && (c.offset > 0 ==> c.written < |msgs| && c.offset < BodyLen(msgs[c.written]))
      && Gathered(msgs, pieces, i) == Sent(body, i, c)
  {
    if pieces != [] {
      var front, p := pieces[..|pieces| - 1], pieces[|pieces| - 1];
      var c := Reach(msgs, Cursor(0, 0), front).value;
      PiecesTile(msgs, front, i);
      OnePieceMore(Whole(msgs[i]).value.body, i, c, p.len, Past(msgs, c, p.len), BodyLen(msgs[c.written]));
    }
  }

  /** What has been sent of message i when the cursor is at c. */
  function Sent(body: seq<byte>, i: nat, c: Cursor): seq<byte> {
    if i < c.written then body else if i == c.written && c.offset <= |body| then body[..c.offset] else []
  }

  lemma {:induction false} OnePieceMore(body: seq<byte>, i: nat, c: Cursor, len: nat, d: Cursor, bodyLen: nat)
    requires c.offset + len <= bodyLen && (i == c.written ==> bodyLen == |body|)
    requires d == if c.offset + len < bodyLen then Cursor(c.written, c.offset + len) else Cursor(c.written + 1, 0)
    ensures Sent(body, i, d) == Sent(body, i, c) + if i == c.written then body[c.offset..c.offset + len] else []
  {
    if i == c.written {
      assert body[..c.offset] + body[c.offset..c.offset + len] == body[..c.offset + len];
      assert body[..|body|] == body;
    }
  }

  /** How much is left to send: messages, then body bytes of the current one. */
  function BytesLeft(msgs: seq<Outgoing>, c: Cursor): nat {
    if c.written < |msgs| && c.offset <= BodyLen(msgs[c.written]) then BodyLen(msgs[c.written]) - c.offset else 0
  }

  predicate Before(msgs: seq<Outgoing>, c: Cursor, d: Cursor) {
    c.written < d.written <= |msgs| || (c.written == d.written && BytesLeft(msgs, d) < BytesLeft(msgs, c))
  }

  /** Every run of pieces moves the cursor on. */
  lemma {:induction false} PiecesAdvance(msgs: seq<Outgoing>, from: Cursor, pieces: seq<Piece>)
    requires pieces != [] && Reach(msgs, from, pieces).Some?
    ensures Before(msgs, from, Reach(msgs, from, pieces).value)
  {
    if |pieces| > 1 {
      PiecesAdvance(msgs, from, pieces[..|pieces| - 1]);
    } else {
      assert Reach(msgs, from, pieces[..0]) == Some(from);
    }
  }

  function FragmentOf(m: Message, off: nat, len: nat): (s: seq<byte>)
    requires off + len <= |m.body| < 0x100_0000
    ensures |s| == DTLS1_HM_HEADER_LENGTH + len
  {
    FragmentBytes(Fragment(DtlsMessage.Header(m.typ, |m.body|, m.seqno, off, len), m.body[off..off + len]))
  }

  /** What a record that carries a piece protects. */
  function PieceBytes(o: Outgoing, p: Piece): seq<byte>
    requires !o.isCcs ==> Whole(o).Some? && p.off + p.len <= |Whole(o).value.body|
  {
    if o.isCcs then [SSL3_MT_CCS]
    else FragmentOf(Whole(o).value, p.off, p.len)
  }

  // ---- packets ----

  datatype SealedRecord = SealedRecord(aead: WriteAead, typ: byte, version: uint16, number: Number, plain: seq<byte>,
    body: Ciphertext)

  /** What the record header's length field can count. */
  type Ciphertext = s: seq<byte> | |s| < 0x1_0000

  /** The body is what the AEAD made of the plaintext. */
  ghost predicate Genuine(r: SealedRecord) {
    r.aead.seal(r.typ, r.version, NumberBytes(r.number), r.plain) == Some(r.body)
  }

  ghost predicate Carries(msgs: seq<Outgoing>, r: SealedRecord, p: Piece) {
    && p.index < |msgs| && Genuine(r) && r.number.epoch == msgs[p.index].epoch
    && (!msgs[p.index].isCcs ==> Whole(msgs[p.index]).Some? && p.off + p.len <= |Whole(msgs[p.index]).value.body|)
    && r.plain == PieceBytes(msgs[p.index], p)
    && r.typ == if msgs[p.index].isCcs then SSL3_RT_CHANGE_CIPHER_SPEC else SSL3_RT_HANDSHAKE
  }

  ghost predicate CarriesAll(msgs: seq<Outgoing>, records: seq<SealedRecord>, pieces: seq<Piece>) {
    |records| == |pieces| && forall i :: 0 <= i < |records| ==> Carries(msgs, records[i], pieces[i])
  }

  function PacketBytes(records: seq<SealedRecord>): seq<byte> {
    if records == [] then []
    else
      var r := records[|records| - 1];
      PacketBytes(records[..|records| - 1]) + RecordBytes(r.typ, r.version, r.number, r.body)
  }

  /** A packet that carries pieces laid from one cursor to another. */
  ghost predicate Packs(msgs: seq<Outgoing>, from: Cursor, pieces: seq<Piece>, records: seq<SealedRecord>,
    packet: seq<byte>, to: Cursor) {
    Reach(msgs, from, pieces) == Some(to) && CarriesAll(msgs, records, pieces) && packet == PacketBytes(records)
  }

  lemma {:induction false} PackOneMore(msgs: seq<Outgoing>, from: Cursor, pieces: seq<Piece>,
    records: seq<SealedRecord>, packet: seq<byte>, c: Cursor, p: Piece, r: SealedRecord,
    out: seq<byte>, next: Cursor)
    requires Packs(msgs, from, pieces, records, packet, c) && Fits(msgs, c, p) && Carries(msgs, r, p)
    requires out == RecordBytes(r.typ, r.version, r.number, r.body) && next == Past(msgs, c, p.len)
    ensures Packs(msgs, from, pieces + [p], records + [r], packet + out, next)
  {
    ReachOne(msgs, from, pieces, p);
    PacketGrows(records, r);
  }

  lemma {:induction false} PackNothing(msgs: seq<Outgoing>, from: Cursor, pieces: seq<Piece>,
    records: seq<SealedRecord>, packet: seq<byte>, c: Cursor)
    requires Packs(msgs, from, pieces, records, packet, c)
    ensures Packs(msgs, from, pieces, records, packet + [], c)
  {
    assert packet + [] == packet;
  }

  lemma {:induction false} PacketGrows(records: seq<SealedRecord>, r: SealedRecord)
    ensures PacketBytes(records + [r]) == PacketBytes(records) + RecordBytes(r.typ, r.version, r.number, r.body)
  {
    assert (records + [r])[..|records|] == records;
  }

  /** A packet written, with what it carries. */
  datatype Packet = Packet(bytes: seq<byte>, pieces: seq<Piece>, records: seq<SealedRecord>)
  {
    ghost predicate Ok(msgs: seq<Outgoing>, mtu: nat) {
      bytes == PacketBytes(records) && CarriesAll(msgs, records, pieces) && pieces != [] && |bytes| <= mtu
    }
  }

  ghost function AllPieces(sent: seq<Packet>): seq<Piece> {
    if sent == [] then [] else AllPieces(sent[..|sent| - 1]) + sent[|sent| - 1].pieces
  }

  datatype SealResult = SealError | NoProgress | PartialMessage | Success

  class Writer {
    const record: WriteState
    var outgoing: seq<Outgoing>
    var written: nat
    var offset: nat
    var complete: bool
    var flightHasReply: bool
    var handshakeWriteSeq: uint16
    var transcript: seq<byte>
    var mtu: nat

    ghost function At(): Cursor
      reads this
    {
      Cursor(written, offset)
    }

    ghost predicate Valid()
      reads this, record
    {
      && |outgoing| <= SSL_MAX_HANDSHAKE_FLIGHT && written <= |outgoing|
      && (offset > 0 ==> written < |outgoing| && offset < BodyLen(outgoing[written]))
      && record.aead.Valid() && record.lastAead.Valid()
    }

    /** Nothing in the flight or the AEADs stands in the way of sealing the rest of it. */
    ghost predicate Willing()
      reads this, record
    {
      && record.aead.Total() && record.lastAead.Total()
      && forall i :: written <= i < |outgoing| ==>
        && (outgoing[i].epoch == record.wEpoch || UsePrevious(outgoing[i]))
        && (outgoing[i].isCcs || Whole(outgoing[i]).Some?)
    }

    /** The MTU has room for a byte of any message at either epoch, and a record's length for the MTU. */
    ghost predicate Roomy()
      reads this, record
    {
      DTLS1_HM_HEADER_LENGTH + 1 + MaxSealOverhead(false) <= mtu < 0x1_0000 &&
        DTLS1_HM_HEADER_LENGTH + 1 + MaxSealOverhead(true) <= mtu
    }

    constructor (aead: WriteAead, recordVersion: uint16, mtu: nat)
      requires aead.Valid()
      ensures Valid() && fresh(record) && outgoing == [] && handshakeWriteSeq == 0 && transcript == [] && !complete
    {
      record := new WriteState(aead, recordVersion);
      outgoing, written, offset, complete, flightHasReply := [], 0, 0, false, false;
      handshakeWriteSeq, transcript := 0, [];
      this.mtu := mtu;
      new;
      record.lastAead := aead;
    }

    /** dtls_max_seal_overhead */
    function MaxSealOverhead(previous: bool): nat
      reads this, record
    {
      DTLS1_RT_HEADER_LENGTH + record.WriteAeadOf(previous).maxOverhead
    }

    /** dtls_seal_prefix_len */
    function SealPrefixLen(previous: bool): nat
      reads this, record
    {
      DTLS1_RT_HEADER_LENGTH + record.WriteAeadOf(previous).explicitNonceLen
    }

    /** dtls_clear_outgoing_messages */
    method ClearOutgoingMessages()
      requires Valid()
      modifies this`outgoing, this`written, this`offset, this`complete, this`flightHasReply
      ensures Valid() && outgoing == [] && At() == Cursor(0, 0) && !complete && !flightHasReply
    {
      outgoing, written, offset, complete, flightHasReply := [], 0, 0, false, false;
    }

    /** dtls1_init_message: the header, its lengths to be filled in. */
    method InitMessage(typ: byte) returns (cbb: seq<byte>)
      ensures cbb == [typ] + U24(0) + U16(handshakeWriteSeq) + U24(0)
    {
      cbb := [typ] + U24(0) + U16(handshakeWriteSeq) + U24(0);
    }

    /** dtls1_finish_message, for the body built after such a header: the message as one fragment. */
    method FinishMessage(cbb: seq<byte>, body: seq<byte>, ghost typ: byte, ghost seqno: uint16)
      returns (msg: Option<seq<byte>>)
      requires cbb == [typ] + U24(0) + U16(seqno) + U24(0)
      ensures msg.Some? <==> |body| < 0x100_0000
      ensures msg.Some? ==> msg.value == Raw(Message(typ, seqno, body))
    {
      if |body| >= 0x100_0000 {
        return None;
      }
      var out := cbb + U24(|body|) + body;
      out := out[..1] + out[9..12] + out[4..];
      return Some(out);
    }

    /** add_outgoing: a message or ChangeCipherSpec joins the flight, or starts a new one if the last
        was complete. Handshake messages join the transcript. */
    method AddOutgoing(isCcs: bool, data: seq<byte>) returns (ok: bool)
      requires Valid()
      modifies this
      ensures Valid() && mtu == old(mtu)
      ensures ok <==> (old(complete) || |old(outgoing)| < SSL_MAX_HANDSHAKE_FLIGHT) && |data| < TWO32
      ensures var before := if old(complete) then [] else old(outgoing);
        outgoing == if ok then before + [Outgoing(data, record.wEpoch, isCcs)] else before
      ensures At() == if old(complete) then Cursor(0, 0) else old(At())
      ensures complete == false
      ensures transcript == if ok && !isCcs then old(transcript) + data else old(transcript)
      ensures handshakeWriteSeq == if ok && !isCcs then (old(handshakeWriteSeq) + 1) % 0x1_0000
        else old(handshakeWriteSeq)
    {
      if complete {
        ClearOutgoingMessages();
      }
      if |outgoing| >= SSL_MAX_HANDSHAKE_FLIGHT || |data| >= TWO32 {
        return false;
      }
      if !isCcs {
        transcript := transcript + data;
        handshakeWriteSeq := (handshakeWriteSeq + 1) % 0x1_0000;
      }
      outgoing := outgoing + [Outgoing(data, record.wEpoch, isCcs)];
      return true;
    }

    /** dtls1_on_handshake_complete */
    method OnHandshakeComplete()
      requires Valid()
      modifies this`outgoing, this`written, this`offset, this`complete, this`flightHasReply
      ensures Valid()
      ensures old(flightHasReply) ==> outgoing == [] && At() == Cursor(0, 0)
      ensures !old(flightHasReply) ==> outgoing == old(outgoing) && At() == old(At()) && complete == old(complete)
    {
      if flightHasReply {
        ClearOutgoingMessages();
      }
    }

    /** One record of a packet. */
    method SealPlain(typ: byte, plain: seq<byte>, previous: bool, maxOut: nat) returns (out: Option<seq<byte>>,
      ghost r: SealedRecord)
      requires Valid() && (previous ==> record.wEpoch >= 1)
      modifies record
      ensures Valid() && record.wEpoch == old(record.wEpoch) && record.aead == old(record.aead) &&
        record.lastAead == old(record.lastAead)
      ensures record.recordVersion == old(record.recordVersion)
      ensures out.Some? ==> Genuine(r) && r.typ == typ && r.plain == plain
      ensures out.Some? ==> r.number.epoch == if previous then record.wEpoch - 1 else record.wEpoch
      ensures out.Some? ==> out.value == RecordBytes(r.typ, r.version, r.number, r.body) && |out.value| <= maxOut
      ensures record.WriteAeadOf(previous).Total() && |plain| + MaxSealOverhead(previous) <= maxOut < 0x1_0000 ==>
        out.Some? || !record.intact
      ensures record.intact ==> old(record.intact)
    {
      var number, aead := record.NextNumber(previous), record.WriteAeadOf(previous);
      r := SealedRecord(aead, typ, record.recordVersion, number, plain, []);
      out := record.SealRecord(typ, plain, previous, maxOut);
      if out.Some? {
        r := r.(body := aead.seal(typ, record.recordVersion, NumberBytes(number), plain).value);
      }
    }

    /** seal_next_message: a record with as much of the next message as maxOut bytes have room for. */
    method SealNextMessage(maxOut: nat) returns (result: SealResult, out: seq<byte>, ghost p: Piece,
      ghost r: SealedRecord)
      requires Valid() && written < |outgoing|
      modifies this`offset, record
      ensures Valid() && record.wEpoch == old(record.wEpoch) && record.aead == old(record.aead) &&
        record.lastAead == old(record.lastAead)
      ensures record.recordVersion == old(record.recordVersion)
      ensures result.NoProgress? ==> old(NoRoom(maxOut)) && NoRoom(maxOut) && offset == old(offset)
      ensures result.PartialMessage? ==> offset > 0
      ensures result.SealError? ==> offset == old(offset)
      ensures result.PartialMessage? || result.Success? ==>
        && !old(NoRoom(maxOut)) && Fits(outgoing, old(At()), p) && Carries(outgoing, r, p)
        && out == RecordBytes(r.typ, r.version, r.number, r.body) && |out| <= maxOut
      ensures result.Success? ==> offset == 0 && Past(outgoing, old(At()), p.len) == Cursor(written + 1, 0)
      ensures result.PartialMessage? ==> Past(outgoing, old(At()), p.len) == At()
      ensures result.PartialMessage? ==>
        p.len == maxOut - DTLS1_HM_HEADER_LENGTH - MaxSealOverhead(old(UsePrevious(outgoing[written])))
      ensures result.SealError? && old(Willing()) && maxOut < 0x1_0000 ==> !record.intact
      ensures record.intact ==> old(record.intact)
    {
      var msg := outgoing[written];
      result, out, p := SealError, [], Piece(written, offset, 0);
      r := SealedRecord(record.aead, 0, 0, Number(0, 0), [], []);
      var previous := false;
      if record.wEpoch >= 1 && msg.epoch == record.wEpoch - 1 {
        previous := true;
      } else if msg.epoch != record.wEpoch {
        return;
      }
      var overhead := MaxSealOverhead(previous);
      if msg.isCcs {
        if maxOut < 1 + overhead {
          result := NoProgress;
          return;
        }
        var sealed;
        sealed, r := SealPlain(SSL3_RT_CHANGE_CIPHER_SPEC, [SSL3_MT_CCS], previous, maxOut);
        return if sealed.Some? then Success else SealError, if sealed.Some? then sealed.value else [], p, r;
      }
      result, out, p, r := SealFragment(maxOut, previous);
    }

    /** The handshake branch of seal_next_message. */
    method SealFragment(maxOut: nat, previous: bool) returns (result: SealResult, out: seq<byte>, ghost p: Piece,
      ghost r: SealedRecord)
      requires Valid() && written < |outgoing| && !outgoing[written].isCcs
      requires previous ==> record.wEpoch >= 1
      requires outgoing[written].epoch == if previous then record.wEpoch - 1 else record.wEpoch
      modifies this`offset, record
      ensures Valid() && record.wEpoch == old(record.wEpoch) && record.aead == old(record.aead) &&
        record.lastAead == old(record.lastAead)
      ensures record.recordVersion == old(record.recordVersion)
      ensures result.NoProgress? <==>
        Whole(outgoing[written]).Some? && maxOut < DTLS1_HM_HEADER_LENGTH + 1 + MaxSealOverhead(previous)
      ensures result.SealError? || result.NoProgress? ==> offset == old(offset)
      ensures result.PartialMessage? || result.Success? ==>
        && Fits(outgoing, old(At()), p) && Carries(outgoing, r, p)
        && out == RecordBytes(r.typ, r.version, r.number, r.body) && |out| <= maxOut
      ensures result.Success? ==> offset == 0 && Past(outgoing, old(At()), p.len) == Cursor(written + 1, 0)
      ensures result.PartialMessage? ==> Past(outgoing, old(At()), p.len) == At()
      ensures result.PartialMessage? ==> p.len == maxOut - DTLS1_HM_HEADER_LENGTH - MaxSealOverhead(previous)
      ensures record.WriteAeadOf(previous).Total() && Whole(outgoing[written]).Some? && maxOut < 0x1_0000 ==>
        !result.SealError? || !record.intact
      ensures record.intact ==> old(record.intact)
    {
      ghost var start := At();
      var msg, overhead, prefix := outgoing[written], MaxSealOverhead(previous), SealPrefixLen(previous);
      result, out, p := SealError, [], Piece(written, offset, 0);
      r := SealedRecord(record.aead, 0, 0, Number(0, 0), [], []);
      var whole := Whole(msg);
      if whole.None? || offset > |whole.value.body| {
        return;
      }
      var m := whole.value;
      if maxOut < DTLS1_HM_HEADER_LENGTH + 1 + overhead || maxOut < prefix {
        result := NoProgress;
        return;
      }
      var rest := |m.body| - offset;
      var todo := rest;
      if todo > maxOut - DTLS1_HM_HEADER_LENGTH - overhead {
        todo := maxOut - DTLS1_HM_HEADER_LENGTH - overhead;
      }
      if DTLS1_HM_HEADER_LENGTH + todo > maxOut - prefix {
        return;
      }
      PartFits(outgoing, start, todo);
      var ok;
      ok, out, p, r := SealPart(m, todo, maxOut, previous);
      result := if !ok then SealError else if todo == rest then Success else PartialMessage;
    }

    /** The end of seal_next_message: the fragment built and sealed, and the offset moved. */
    method SealPart(m: Message, todo: nat, maxOut: nat, previous: bool) returns (ok: bool, out: seq<byte>,
      ghost p: Piece, ghost r: SealedRecord)
      requires Valid() && written < |outgoing| && !outgoing[written].isCcs && Whole(outgoing[written]) == Some(m)
      requires previous ==> record.wEpoch >= 1
      requires outgoing[written].epoch == if previous then record.wEpoch - 1 else record.wEpoch
      requires offset + todo <= |m.body| && (todo > 0 || m.body == [])
      modifies this`offset, record
      ensures Valid() && record.wEpoch == old(record.wEpoch) && record.aead == old(record.aead) &&
        record.lastAead == old(record.lastAead)
      ensures record.recordVersion == old(record.recordVersion)
      ensures offset == if !ok then old(offset) else if old(offset) + todo == |m.body| then 0 else old(offset) + todo
      ensures ok ==> p == Piece(written, old(offset), todo) && Carries(outgoing, r, p)
      ensures var room := DTLS1_HM_HEADER_LENGTH + todo + MaxSealOverhead(previous);
        !ok && record.WriteAeadOf(previous).Total() && room <= maxOut < 0x1_0000 ==> !record.intact
      ensures record.intact ==> old(record.intact)
      ensures ok ==> out == RecordBytes(r.typ, r.version, r.number, r.body) && |out| <= maxOut
    {
      var sealed;
      p := Piece(written, offset, todo);
      assert PieceBytes(outgoing[written], p) == FragmentOf(m, offset, todo);
      ok, out := false, [];
      sealed, r := SealPlain(SSL3_RT_HANDSHAKE, FragmentOf(m, offset, todo), previous, maxOut);
      if sealed.Some? {
        ok, out := true, sealed.value;
        offset := if offset + todo == |m.body| then 0 else offset + todo;
      }
    }

    predicate UsePrevious(msg: Outgoing)
      reads this, record
    {
      record.wEpoch >= 1 && msg.epoch == record.wEpoch - 1
    }

    /** Not even one byte of the next message, or its ChangeCipherSpec, is certain to fit. */
    ghost predicate NoRoom(maxOut: nat)
      requires written < |outgoing|
      reads this, record
    {
      var overhead := MaxSealOverhead(UsePrevious(outgoing[written]));
      maxOut < overhead + 1 + if outgoing[written].isCcs then 0 else DTLS1_HM_HEADER_LENGTH
    }

    /** A packet need not hold more: all is sealed, or a part of what is next, or no byte of it is certain to fit. */
    ghost predicate Full(room: nat)
      reads this, record
    {
      written >= |outgoing| || offset > 0 || NoRoom(room)
    }

    /** One turn of the loop in seal_next_packet: the cursor passes a message once all of it is sealed. */
    method SealOne(room: nat, ghost start: Cursor, ghost before: seq<Piece>, ghost sealed: seq<SealedRecord>,
      packet: seq<byte>)
      returns (result: SealResult, out: seq<byte>, ghost pieces: seq<Piece>, ghost records: seq<SealedRecord>)
      requires Valid() && written < |outgoing| && Packs(outgoing, start, before, sealed, packet, At())
      modifies this`written, this`offset, record
      ensures Valid() && record.wEpoch == old(record.wEpoch)
      ensures Packs(outgoing, start, pieces, records, packet + out, At()) && |out| <= room
      ensures result.NoProgress? || result.SealError? ==> pieces == before && out == []
      ensures result.NoProgress? ==> old(NoRoom(room))
      ensures result.PartialMessage? || result.Success? ==> pieces != []
      ensures result.NoProgress? || result.PartialMessage? ==> Full(room - |out|)
      ensures written == if result.Success? then old(written) + 1 else old(written)
      ensures result.SealError? && old(Willing()) && room < 0x1_0000 ==> !record.intact
      ensures record.aead == old(record.aead) && record.lastAead == old(record.lastAead) &&
        (record.intact ==> old(record.intact))
    {
      ghost var c := At();
      ghost var p, r;
      result, out, p, r := SealNextMessage(room);
      pieces, records := before, sealed;
      if result.NoProgress? || result.SealError? {
        out := [];
        PackNothing(outgoing, start, before, sealed, packet, c);
      } else {
        pieces, records := before + [p], sealed + [r];
        assert Packs(outgoing, start, pieces, records, packet + out, Past(outgoing, c, p.len)) by {
          PackOneMore(outgoing, start, before, sealed, packet, c, p, r, out, Past(outgoing, c, p.len));
        }
        Pass(result.Success?, start, pieces, records, packet + out);
      }
    }

    /** The cursor passes a message all of which is sealed. */
    method Pass(all: bool, ghost start: Cursor, ghost pieces: seq<Piece>, ghost records: seq<SealedRecord>,
      ghost packet: seq<byte>)
      requires Valid() && written < |outgoing| && (all ==> offset == 0)
      requires Packs(outgoing, start, pieces, records, packet, if all then Cursor(written + 1, 0) else At())
      modifies this`written
      ensures Valid() && written == if all then old(written) + 1 else old(written)
      ensures Packs(outgoing, start, pieces, records, packet, At())
    {
      if all {
        written := written + 1;
      }
    }

    /** seal_next_packet: as many records as maxOut bytes have room for. */
    method SealNextPacket(maxOut: nat)
      returns (ok: bool, packet: seq<byte>, ghost pieces: seq<Piece>, ghost records: seq<SealedRecord>,
        ghost sealFailed: bool)
      requires Valid() && written < |outgoing|
      modifies this`written, this`offset, record
      ensures Valid() && record.wEpoch == old(record.wEpoch)
      ensures Packs(outgoing, old(At()), pieces, records, packet, At())
      ensures ok ==> pieces != [] && |packet| <= maxOut
      ensures ok ==> Full(maxOut - |packet|)
      ensures !ok ==> sealFailed || (old(NoRoom(maxOut)) && pieces == [])
      ensures sealFailed && old(Willing()) && maxOut < 0x1_0000 ==> !record.intact
      ensures record.aead == old(record.aead) && record.lastAead == old(record.lastAead) &&
        (record.intact ==> old(record.intact))
    {
      packet, pieces, records, sealFailed := [], [], [], false;
      ghost var start, tooSmall := At(), NoRoom(maxOut);
      var room: nat, madeProgress, result := maxOut, false, Success;
      while result.Success? && written < |outgoing|
        invariant Valid() && record.wEpoch == old(record.wEpoch)
        invariant Packs(outgoing, start, pieces, records, packet, At())
        invariant |packet| + room == maxOut && (madeProgress <==> pieces != [])
        invariant result.NoProgress? || result.PartialMessage? ==> Full(room)
        invariant !madeProgress && result.Success? ==> At() == start && room == maxOut && (NoRoom(room) <==> tooSmall)
        invariant !madeProgress && result.NoProgress? ==> tooSmall
        invariant !madeProgress ==> !result.PartialMessage? && (result.Success? ==> written < |outgoing|)
        invariant record.aead == old(record.aead) && record.lastAead == old(record.lastAead) &&
          (record.intact ==> old(record.intact))
        invariant old(Willing()) ==> Willing()
        invariant result.SealError? && old(Willing()) && maxOut < 0x1_0000 ==> !record.intact
        decreases |outgoing| - written, if result.Success? then 1 else 0
      {
        var out;
        result, out, pieces, records := SealOne(room, start, pieces, records, packet);
        packet, room := packet + out, room - |out|;
        madeProgress := madeProgress || result.PartialMessage? || result.Success?;
      }
      sealFailed := result.SealError?;
      ok := madeProgress && !result.SealError?;
    }

    /** dtls1_update_mtu, given the transport's answer. */
    method UpdateMtu(noQuery: bool, answer: int)
      requires mtu >= kMinMTU || !noQuery
      modifies this`mtu
      ensures mtu >= kMinMTU
      ensures mtu == if old(mtu) >= kMinMTU || noQuery then old(mtu)
        else if kMinMTU <= answer <= 0x4000_0000 then answer else kDefaultMTU
    {
      if mtu < kMinMTU && !noQuery {
        mtu := if 0 <= answer <= 0x4000_0000 && answer >= kMinMTU then answer else kDefaultMTU;
      }
    }

    /** One turn of the loop in send_flight: a packet sealed, and written or taken back. */
    method SendPacket(bioRet: int, ghost start: Cursor, ghost before: seq<Packet>)
      returns (ret: int, ghost sent: seq<Packet>, ghost lost: seq<Piece>, ghost sealFailed: bool)
      requires Valid() && written < |outgoing| && Reach(outgoing, start, AllPieces(before)) == Some(At())
      requires forall p <- before :: p.Ok(outgoing, mtu)
      modifies this`written, this`offset, record
      ensures Valid() && record.wEpoch == old(record.wEpoch) && forall p <- sent :: p.Ok(outgoing, mtu)
      ensures Reach(outgoing, start, AllPieces(sent) + lost) == Some(At())
      ensures ret > 0 ==>
        lost == [] && Reach(outgoing, start, AllPieces(sent)) == Some(At()) && Before(outgoing, old(At()), At())
      ensures lost != [] ==> sealFailed && ret == -1
      ensures old(Willing()) && !old(NoRoom(mtu)) && mtu < 0x1_0000 && record.intact && bioRet > 0 ==> ret > 0
      ensures record.aead == old(record.aead) && record.lastAead == old(record.lastAead) &&
        (record.intact ==> old(record.intact))
    {
      ghost var from := At();
      var oldWritten, oldOffset := written, offset;
      var ok, packet;
      ghost var pieces, records;
      sent, lost := before, [];
      ok, packet, pieces, records, sealFailed := SealNextPacket(mtu);
      ReachAppend(outgoing, start, AllPieces(before), pieces);
      assert AllPieces(before) + [] == AllPieces(before);
      if !ok {
        return -1, before, pieces, sealFailed;
      }
      ret := bioRet;
      if bioRet <= 0 {
        written, offset := oldWritten, oldOffset;
        return;
      }
      PiecesAdvance(outgoing, from, pieces);
      ghost var one := Packet(packet, pieces, records);
      sent := before + [one];
      assert sent[..|before|] == before;
      assert AllPieces(sent) + [] == AllPieces(sent);
    }

    /** send_flight. The transport's answers are given by their order. Whatever happens, the pieces sent are
        laid end to end from where the cursor stood to where it stands; only after a failure to seal may
        the cursor have passed pieces (lost) that were sealed into a packet never written. With room, willing
        AEADs and a transport that takes what it is given, the whole flight goes out. */
    method SendFlight(writeShutdown: bool, noQuery: bool, answer: int, bioWrite: nat -> int, bioFlush: int)
      returns (ret: int, ghost sent: seq<Packet>, ghost lost: seq<Piece>, ghost sealFailed: bool)
      requires Valid() && (mtu >= kMinMTU || !noQuery)
      modifies this`written, this`offset, this`mtu, record
      ensures Valid() && record.wEpoch == old(record.wEpoch)
      ensures forall p <- sent :: p.Ok(outgoing, mtu)
      ensures Reach(outgoing, old(At()), AllPieces(sent) + lost) == Some(At())
      ensures lost != [] ==> sealFailed && ret == -1
      ensures ret == 1 ==> At() == Cursor(|outgoing|, 0) && lost == [] && bioFlush > 0
      ensures ret == 1 || ret <= 0
      ensures var taken := bioFlush > 0 && forall n :: bioWrite(n) > 0;
        !writeShutdown && old(Willing()) && Roomy() && record.intact && taken ==> ret == 1
    {
      assert AllPieces([]) + [] == [];
      ret, sent, lost, sealFailed := -1, [], [], false;
      if writeShutdown {
        return;
      }
      UpdateMtu(noQuery, answer);
      ret, sent, lost, sealFailed := SendPackets(bioWrite);
      if ret > 0 {
        ret := if bioFlush <= 0 then -1 else 1;
      }
    }

    /** The loop of send_flight. */
    method SendPackets(bioWrite: nat -> int) returns (ret: int, ghost sent: seq<Packet>, ghost lost: seq<Piece>,
      ghost sealFailed: bool)
      requires Valid()
      modifies this`written, this`offset, record
      ensures Valid() && record.wEpoch == old(record.wEpoch)
      ensures forall p <- sent :: p.Ok(outgoing, mtu)
      ensures Reach(outgoing, old(At()), AllPieces(sent) + lost) == Some(At())
      ensures lost != [] ==> sealFailed && ret == -1
      ensures ret > 0 ==> At() == Cursor(|outgoing|, 0) && lost == []
      ensures old(Willing()) && Roomy() && record.intact && (forall n :: bioWrite(n) > 0) ==> ret > 0
    {
      ret, sent, lost, sealFailed := 1, [], [], false;
      ghost var start, msgs := At(), outgoing;
      var n := 0;
      while written < |outgoing|
        invariant Valid() && record.wEpoch == old(record.wEpoch)
        invariant forall p <- sent :: p.Ok(msgs, mtu)
        invariant Reach(msgs, start, AllPieces(sent)) == Some(At())
        invariant (old(Willing()) ==> Willing()) && (record.intact ==> old(record.intact))
        decreases |outgoing| - written, BytesLeft(outgoing, At())
      {
        ret, sent, lost, sealFailed := SendPacket(bioWrite(n), start, sent);
        n := n + 1;
        if ret <= 0 {
          return;
        }
      }
      assert AllPieces(sent) + [] == AllPieces(sent);
      ret, lost := 1, [];
    }

    /** dtls1_flush_flight; a new flight begins with the next message added. */
    method FlushFlight(writeShutdown: bool, noQuery: bool, answer: int, bioWrite: nat -> int, bioFlush: int)
      returns (ret: int, ghost sent: seq<Packet>, ghost lost: seq<Piece>, ghost sealFailed: bool)
      requires Valid() && (mtu >= kMinMTU || !noQuery)
      modifies this`written, this`offset, this`mtu, this`complete, record
      ensures Valid() && complete && forall p <- sent :: p.Ok(outgoing, mtu)
      ensures Reach(outgoing, old(At()), AllPieces(sent) + lost) == Some(At())
      ensures lost != [] ==> sealFailed && ret == -1
      ensures ret == 1 ==> At() == Cursor(|outgoing|, 0) && lost == []
      ensures var taken := bioFlush > 0 && forall n :: bioWrite(n) > 0;
        !writeShutdown && old(Willing()) && Roomy() && record.intact && taken ==> ret == 1
    {
      complete := true;
      ret, sent, lost, sealFailed := SendFlight(writeShutdown, noQuery, answer, bioWrite, bioFlush);
    }

    /** dtls1_retransmit_outgoing_messages: the whole flight again. */
    method RetransmitOutgoingMessages(writeShutdown: bool, noQuery: bool, answer: int, bioWrite: nat -> int,
      bioFlush: int)
      returns (ret: int, ghost sent: seq<Packet>, ghost lost: seq<Piece>, ghost sealFailed: bool)
      requires Valid() && (mtu >= kMinMTU || !noQuery)
      modifies this`written, this`offset, this`mtu, record
      ensures Valid() && forall p <- sent :: p.Ok(outgoing, mtu)
      ensures Reach(outgoing, Cursor(0, 0), AllPieces(sent) + lost) == Some(At())
      ensures lost != [] ==> sealFailed && ret == -1
      ensures ret == 1 ==> forall i :: 0 <= i < |outgoing| && !outgoing[i].isCcs && Whole(outgoing[i]).Some? ==>
        Gathered(outgoing, AllPieces(sent), i) == Whole(outgoing[i]).value.body
    {
      written, offset := 0, 0;
      ret, sent, lost, sealFailed := SendFlight(writeShutdown, noQuery, answer, bioWrite, bioFlush);
      if ret == 1 {
        assert AllPieces(sent) + lost == AllPieces(sent);
        forall i | 0 <= i < |outgoing| && !outgoing[i].isCcs && Whole(outgoing[i]).Some?
          ensures Gathered(outgoing, AllPieces(sent), i) == Whole(outgoing[i]).value.body
        {
          PiecesTile(outgoing, AllPieces(sent), i);
        }
      }
    }
  }
}
