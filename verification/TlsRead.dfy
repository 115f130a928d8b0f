/** Reading handshake messages over TLS in s3_both.cc: records join a buffer, messages leave it. */
module TlsRead {
  import opened Bytes
  import opened Ssl

  const SSL3_HM_HEADER_LENGTH: nat := 4

  // ---- messages in a stream ----

  /** ssl3_init_message and ssl3_finish_message: a type, a length and a body. */
  function Frame(typ: byte, body: seq<byte>): seq<byte>
    requires |body| < 0x100_0000
  {
    [typ] + U24(|body|) + body
  }

  /** Type, then three bytes of length, big end first (section 7.4 of RFC 5246). */
  lemma {:induction false} FrameLayout(typ: byte, body: seq<byte>)
    requires |body| < 0x100_0000
    ensures var s := Frame(typ, body);
      && |s| == 4 + |body| && s[4..] == body
      && s[0] == typ && 65536 * (s[1] as nat) + 256 * (s[2] as nat) + s[3] == |body|
  {
    U24RoundTrip(|body|);
  }

  function BodyLength(s: seq<byte>): uint24
    requires |s| >= SSL3_HM_HEADER_LENGTH
  {
    GetU24(s[1..4])
  }

  /** A message stands complete at the front. */
  predicate Complete(s: seq<byte>) {
    |s| >= SSL3_HM_HEADER_LENGTH && |s| >= SSL3_HM_HEADER_LENGTH + BodyLength(s)
  }

  function First(s: seq<byte>): (m: SSLMessage)
    requires Complete(s)
    ensures |m.raw| >= SSL3_HM_HEADER_LENGTH && m.raw <= s
    ensures |m.body| < 0x100_0000 && m.raw == Frame(m.typ, m.body)
  {
    var n: nat := BodyLength(s);
    assert s[..4 + n] == [s[0]] + s[1..4] + s[4..4 + n];
    GetU24RoundTrip(s[1..4]);
    SSLMessage(s[0], s[4..4 + n], s[..4 + n])
  }

  /** How many bytes to have before there is more to tell: parse_message's bytes_needed. */
  function Needed(s: seq<byte>): nat {
    if |s| < SSL3_HM_HEADER_LENGTH then 4 else 4 + BodyLength(s)
  }

  /** All complete messages of a stream, and what is left. */
  function Split(s: seq<byte>): (r: (seq<SSLMessage>, seq<byte>))
    decreases |s|
  {
    if !Complete(s) then ([], s)
    else
      var m := First(s);
      var (ms, rest) := Split(s[|m.raw|..]);
      ([m] + ms, rest)
  }

  function RawOf(ms: seq<SSLMessage>): seq<byte> {
    if ms == [] then [] else ms[0].raw + RawOf(ms[1..])
  }

  /** Splitting loses nothing. */
  lemma {:induction false} SplitCovers(s: seq<byte>)
    ensures RawOf(Split(s).0) + Split(s).1 == s && !Complete(Split(s).1)
    decreases |s|
  {
    if Complete(s) {
      var m := First(s);
      var rest := s[|m.raw|..];
      SplitCovers(rest);
      assert Split(s).0 == [m] + Split(rest).0 && ([m] + Split(rest).0)[1..] == Split(rest).0;
      assert s == m.raw + rest;
      Regroup(m.raw, RawOf(Split(rest).0), Split(rest).1);
    }
  }

  lemma {:induction false} FrameFirst(typ: byte, body: seq<byte>, rest: seq<byte>)
    requires |body| < 0x100_0000
    ensures var s := Frame(typ, body) + rest;
      Complete(s) && First(s) == SSLMessage(typ, body, Frame(typ, body)) && s[|Frame(typ, body)|..] == rest
  {
    var s := Frame(typ, body) + rest;
    assert s[1..4] == U24(|body|);
    U24RoundTrip(|body|);
    assert s[4..4 + |body|] == body && s[..4 + |body|] == Frame(typ, body);
  }

  /** However the stream goes on, the messages already complete stay. */
  lemma {:induction false} SplitExtends(s: seq<byte>, more: seq<byte>)
    ensures Split(s + more) == (Split(s).0 + Split(Split(s).1 + more).0, Split(Split(s).1 + more).1)
    decreases |s|
  {
    if Complete(s) {
      var m := First(s);
      var rest := s[|m.raw|..];
      assert s + more == Frame(m.typ, m.body) + (rest + more);
      FrameFirst(m.typ, m.body, rest + more);
      SplitExtends(rest, more);
      Regroup([m], Split(rest).0, Split(Split(rest).1 + more).0);
    } else {
      assert [] + Split(s + more).0 == Split(s + more).0;
    }
  }

  predicate Framed(ms: seq<SSLMessage>) {
    forall m <- ms :: |m.body| < 0x100_0000 && m.raw == Frame(m.typ, m.body)
  }

  /** A stream of framed messages splits into those messages. */
  lemma {:induction false} SplitInvertsFraming(ms: seq<SSLMessage>)
    requires Framed(ms)
    ensures Split(RawOf(ms)) == (ms, [])
  {
    if ms != [] {
      assert ms[0] in ms && ms == [ms[0]] + ms[1..];
      FrameFirst(ms[0].typ, ms[0].body, RawOf(ms[1..]));
      SplitInvertsFraming(ms[1..]);
    }
  }

  // ---- the buffer ----

  class HandshakeBuffer {
    var hsBuf: Option<seq<byte>>
    var hasMessage: bool
    /** Everything received in handshake records, and the messages consumed. */
    ghost var received: seq<byte>
    ghost var handed: seq<SSLMessage>

    ghost function Contents(): seq<byte>
      reads this
    {
      if hsBuf.Some? then hsBuf.value else []
    }

    /** The messages consumed are the first of the stream received, and the buffer holds the rest of it:
        where records began and ended plays no part. */
    ghost predicate Valid()
      reads this
    {
      && Split(received) == (handed + Split(Contents()).0, Split(Contents()).1)
      && (hasMessage ==> Complete(Contents()))
    }

    constructor ()
      ensures Valid() && received == [] && handed == [] && hsBuf.None? && !hasMessage
    {
      hsBuf, hasMessage, received, handed := None, false, [], [];
      new;
      assert handed + Split([]).0 == [];
    }

    /** parse_message */
    method ParseMessage() returns (out: Option<SSLMessage>, needed: nat)
      requires Valid()
      ensures out.Some? <==> Complete(Contents())
      ensures out.Some? ==> out.value == First(Contents())
      ensures out.None? ==> needed == Needed(Contents()) > |Contents()|
    {
      if hsBuf.None? || |hsBuf.value| < 4 {
        return None, 4;
      }
      var s := hsBuf.value;
      var len: nat := GetU24(s[1..4]);
      if |s| < 4 + len {
        return None, 4 + len;
      }
      return Some(SSLMessage(s[0], s[4..4 + len], s[..4 + len])), 0;
    }

    /** ssl3_get_message */
    method GetMessage() returns (out: Option<SSLMessage>)
      requires Valid()
      modifies this`hasMessage
      ensures Valid() && (out.Some? <==> Complete(Contents())) && (out.Some? ==> out.value == First(Contents()))
      ensures hasMessage == (old(hasMessage) || out.Some?)
    {
      var needed;
      out, needed := ParseMessage();
      if out.Some? && !hasMessage {
        hasMessage := true;
      }
    }

    /** tls_can_accept_handshake_data */
    method CanAcceptHandshakeData(maxLen: nat) returns (ok: bool)
      requires Valid()
      ensures ok <==> !Complete(Contents()) && Needed(Contents()) <= 4 + maxLen
    {
      var out, needed := ParseMessage();
      return out.None? && needed <= 4 + maxLen;
    }

    /** tls_has_unprocessed_handshake_data */
    method HasUnprocessedHandshakeData() returns (has: bool)
      requires Valid()
      ensures has <==> Contents() != if hasMessage then First(Contents()).raw else []
    {
      var msgLen := 0;
      if hasMessage {
        var out, needed := ParseMessage();
        if out.Some? {
          msgLen := |out.value.raw|;
        }
      }
      return hsBuf.Some? && |hsBuf.value| > msgLen;
    }

    /** ssl3_open_handshake, once a handshake record is open. */
    method AppendRecord(body: seq<byte>)
      requires Valid()
      modifies this`hsBuf, this`received
      ensures Valid() && received == old(received) + body && Contents() == old(Contents()) + body
    {
      if hsBuf.None? {
        hsBuf := Some([]);
      }
      Received(received, handed, hsBuf.value, body);
      hsBuf := Some(hsBuf.value + body);
      received := received + body;
    }

    /** ssl3_next_message */
    method NextMessage(inInit: bool)
      requires Valid() && Complete(Contents())
      modifies this`hsBuf, this`hasMessage, this`handed
      ensures Valid() && handed == old(handed) + [First(old(Contents()))] && !hasMessage
      ensures old(Contents()) == First(old(Contents())).raw + Contents()
    {
      var n := |First(hsBuf.value).raw|;
      ghost var m, s := First(Contents()), Contents();
      hsBuf := Some(hsBuf.value[n..]);
      hasMessage := false;
      handed := handed + [m];
      assert Split(s).0 == [m] + Split(s[n..]).0;
      Regroup(old(handed), [m], Split(s[n..]).0);
      if !inInit && hsBuf.value == [] {
        hsBuf := None;
      }
    }
  }

  lemma {:induction false} Received(received: seq<byte>, handed: seq<SSLMessage>, contents: seq<byte>, body: seq<byte>)
    requires Split(received) == (handed + Split(contents).0, Split(contents).1)
    ensures Split(received + body) == (handed + Split(contents + body).0, Split(contents + body).1)
  {
    SplitExtends(received, body);
    SplitExtends(contents, body);
    Regroup(handed, Split(contents).0, Split(Split(contents).1 + body).0);
  }

  /** When what was received so far is the front of a stream of framed messages, the messages consumed are
      the first of them: each once, in order, as framed. */
  lemma {:induction false} HandsUpWhatWasFramed(buffer: HandshakeBuffer, sent: seq<SSLMessage>, more: seq<byte>)
    requires buffer.Valid() && Framed(sent) && buffer.received + more == RawOf(sent)
    ensures buffer.handed <= sent
  {
    SplitInvertsFraming(sent);
    SplitExtends(buffer.received, more);
  }
}
