/** DTLS handshake messages and their fragments: the 12-byte header, and partly received messages. */
module DtlsMessage {
  import opened Bytes

  /** Messages of a flight, ChangeCipherSpec included. */
  const SSL_MAX_HANDSHAKE_FLIGHT: nat := 7

  const DTLS1_HM_HEADER_LENGTH: nat := 12

  /** hm_header_st */
  datatype Header = Header(typ: byte, msgLen: uint24, seqno: uint16, fragOff: uint24, fragLen: uint24)

  function HeaderBytes(h: Header): (s: seq<byte>)
    ensures |s| == DTLS1_HM_HEADER_LENGTH
  {
    [h.typ] + U24(h.msgLen) + U16(h.seqno) + U24(h.fragOff) + U24(h.fragLen)
  }

  function GetHeader(s: seq<byte>): Header
    requires |s| == DTLS1_HM_HEADER_LENGTH
  {
    Header(s[0], GetU24(s[1..4]), GetU16(s[4..6]), GetU24(s[6..9]), GetU24(s[9..12]))
  }

  datatype Fragment = Fragment(header: Header, body: seq<byte>)

  /** dtls1_parse_fragment */
  function ParseFragment(s: seq<byte>): (p: Parse<Fragment>)
    ensures p.Got? ==> |p.rest| < |s| && |p.value.body| == p.value.header.fragLen
  {
    if |s| < DTLS1_HM_HEADER_LENGTH then Fail
    else
      var h := GetHeader(s[..12]);
      if |s| < 12 + h.fragLen then Fail else Got(Fragment(h, s[12..12 + h.fragLen]), s[12 + h.fragLen..])
  }

  function FragmentBytes(f: Fragment): seq<byte> {
    HeaderBytes(f.header) + f.body
  }

  /** The layout of section 4.2.2 of RFC 6347, digit by digit. */
  lemma {:induction false} HeaderLayout(h: Header)
    ensures var s := HeaderBytes(h);
      && s[0] == h.typ && 65536 * (s[1] as nat) + 256 * (s[2] as nat) + s[3] == h.msgLen
      && 256 * (s[4] as nat) + s[5] == h.seqno
      && 65536 * (s[6] as nat) + 256 * (s[7] as nat) + s[8] == h.fragOff
      && 65536 * (s[9] as nat) + 256 * (s[10] as nat) + s[11] == h.fragLen
  {
    U24RoundTrip(h.msgLen);
    U24RoundTrip(h.fragOff);
    U24RoundTrip(h.fragLen);
  }

  lemma {:induction false} HeaderRoundTrip(h: Header)
    ensures GetHeader(HeaderBytes(h)) == h
  {
    var s := HeaderBytes(h);
    assert s[1..4] == U24(h.msgLen) && s[4..6] == U16(h.seqno) && s[6..9] == U24(h.fragOff) &&
      s[9..12] == U24(h.fragLen);
    U24RoundTrip(h.msgLen);
    U16RoundTrip(h.seqno);
    U24RoundTrip(h.fragOff);
    U24RoundTrip(h.fragLen);
  }

  /** A fragment reads back from in front of anything. */
  lemma {:induction false} FragmentRoundTrip(f: Fragment, rest: seq<byte>)
    requires |f.body| == f.header.fragLen
    ensures ParseFragment(FragmentBytes(f) + rest) == Got(f, rest)
  {
    HeaderRoundTrip(f.header);
    var s := FragmentBytes(f) + rest;
    assert s[..12] == HeaderBytes(f.header);
    assert s[12..12 + |f.body|] == f.body && s[12 + |f.body|..] == rest;
  }

  // ---- whole messages ----

  /** A handshake message as the handshake sees it. */
  datatype Message = Message(typ: byte, seqno: uint16, body: seq<byte>)

  /** The header of a message that travels as one fragment. */
  function WholeHeader(m: Message): Header
    requires |m.body| < 0x100_0000
  {
    Header(m.typ, |m.body|, m.seqno, 0, |m.body|)
  }

  /** What the transcript hashes, header included. */
  function Raw(m: Message): seq<byte>
    requires |m.body| < 0x100_0000
  {
    HeaderBytes(WholeHeader(m)) + m.body
  }

  /** Messages are told apart by their raw bytes. */
  lemma {:induction false} RawInjective(m: Message, n: Message)
    requires |m.body| < 0x100_0000 && |n.body| < 0x100_0000 && Raw(m) == Raw(n)
    ensures m == n
  {
    FragmentRoundTrip(Fragment(WholeHeader(m), m.body), []);
    FragmentRoundTrip(Fragment(WholeHeader(n), n.body), []);
    assert Raw(m) + [] == Raw(m) && Raw(n) + [] == Raw(n);
  }

  // ---- messages being received ----

  /** The value of an hm_fragment: its bytes so far, and which of them have arrived. */
  datatype Partial = Partial(message: Message, got: seq<bool>)
  {
    predicate Complete() {
      All(got)
    }
  }

  predicate All(got: seq<bool>) {
    forall i :: 0 <= i < |got| ==> got[i]
  }

  function EmptyPartial(h: Header): Partial {
    Partial(Message(h.typ, h.seqno, seq(h.msgLen, _ => 0)), seq(h.msgLen, _ => false))
  }

  predicate InRange(h: Header) {
    h.fragOff + h.fragLen <= h.msgLen
  }

  /** p with the bytes of [start, end) noted as received. */
  function Marked(p: Partial, start: nat, end: nat): Partial {
    p.(got := seq(|p.got|, i requires 0 <= i < |p.got| => p.got[i] || start <= i < end))
  }

  function Overwrite(bytes: seq<byte>, off: nat, body: seq<byte>): seq<byte>
    requires off + |body| <= |bytes|
  {
    bytes[..off] + body + bytes[off + |body|..]
  }

  /** A fragment's bytes written over a partial message. Nothing is written once it is complete. */
  function Insert(p: Partial, off: nat, body: seq<byte>): (r: Partial)
    requires |p.got| == |p.message.body| && off + |body| <= |p.got|
    ensures |r.got| == |p.got| && |r.message.body| == |p.message.body|
  {
    if p.Complete() then p
    else Marked(p.(message := p.message.(body := Overwrite(p.message.body, off, body))), off, off + |body|)
  }
}
