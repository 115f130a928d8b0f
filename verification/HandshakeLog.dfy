/** What happens in a handshake: the messages, records and checks, and what a log of them says. */
module HandshakeLog {
  import opened Bytes
  import opened Ssl

  const SSL3_MT_CLIENT_HELLO: byte := 1
  const SSL3_MT_SERVER_HELLO: byte := 2
  const DTLS1_MT_HELLO_VERIFY_REQUEST: byte := 3
  const SSL3_MT_NEW_SESSION_TICKET: byte := 4
  const SSL3_MT_CERTIFICATE: byte := 11
  const SSL3_MT_SERVER_KEY_EXCHANGE: byte := 12
  const SSL3_MT_CERTIFICATE_REQUEST: byte := 13
  const SSL3_MT_SERVER_HELLO_DONE: byte := 14
  const SSL3_MT_CERTIFICATE_VERIFY: byte := 15
  const SSL3_MT_CLIENT_KEY_EXCHANGE: byte := 16
  const SSL3_MT_FINISHED: byte := 20
  const SSL3_MT_CERTIFICATE_STATUS: byte := 22
  const SSL3_MT_NEXT_PROTO: byte := 67
  const SSL3_MT_CHANNEL_ID: byte := 203

  datatype Event =
    | Sent(m: SSLMessage) | Consumed(m: SSLMessage)
    | SentChangeCipherSpec | GotChangeCipherSpec
    | NewWriteKeys | NewReadKeys
    | CertificateOk | SignatureOk | SentAlert

  /** The handshake messages sent and consumed since the last HelloVerifyRequest, header and all. */
  ghost function Messages(log: seq<Event>): seq<byte> {
    if log == [] then []
    else
      var front := Messages(log[..|log| - 1]);
      Extend(front, log[|log| - 1])
  }

  function Extend(messages: seq<byte>, e: Event): seq<byte> {
    match e
    case Sent(m) => messages + m.raw
    case Consumed(m) => if m.typ == DTLS1_MT_HELLO_VERIFY_REQUEST then [] else messages + m.raw
    case _ => messages
  }

  /** Events without their contents. */
  datatype Milestone =
    | Wrote(typ: byte) | Took(typ: byte)
    | SentCcs | GotCcs | WriteKeys | ReadKeys | CertOk | SigOk | NoCertificateAlert

  function MilestoneOf(e: Event): Milestone {
    match e
    case Sent(m) => Wrote(m.typ)
    case Consumed(m) => Took(m.typ)
    case SentChangeCipherSpec => SentCcs
    case GotChangeCipherSpec => GotCcs
    case NewWriteKeys => WriteKeys
    case NewReadKeys => ReadKeys
    case CertificateOk => CertOk
    case SignatureOk => SigOk
    case SentAlert => NoCertificateAlert
  }

  /** Milestones in the order they were passed. */
  datatype Trail = Nothing | Then(before: Trail, last: Milestone)

  ghost function Milestones(log: seq<Event>): Trail {
    if log == [] then Nothing else Then(Milestones(log[..|log| - 1]), MilestoneOf(log[|log| - 1]))
  }

  /** The Finished computation: from the server or not, over a transcript. */
  type FinishedMac = (bool, seq<byte>) -> Option<seq<byte>>

  predicate IsFinished(e: Event) {
    (e.Sent? || e.Consumed?) && e.m.typ == SSL3_MT_FINISHED
  }

  /** Every Finished message holds the MAC of the messages before it. */
  ghost predicate FinishedOk(mac: FinishedMac, log: seq<Event>) {
    log == [] ||
    var front, last := log[..|log| - 1], log[|log| - 1];
    FinishedOk(mac, front) && (IsFinished(last) ==> mac(last.Consumed?, Messages(front)) == Some(last.m.body))
  }

  /** The same, event by event. */
  lemma {:induction false} FinishedEverywhere(mac: FinishedMac, log: seq<Event>, i: nat)
    requires FinishedOk(mac, log) && i < |log| && IsFinished(log[i])
    ensures mac(log[i].Consumed?, Messages(log[..i])) == Some(log[i].m.body)
  {
    if i < |log| - 1 {
      FinishedEverywhere(mac, log[..|log| - 1], i);
      assert log[..|log| - 1][..i] == log[..i];
    }
  }

  lemma {:induction false} LogGrows(mac: FinishedMac, log: seq<Event>, e: Event)
    ensures Milestones(log + [e]) == Then(Milestones(log), MilestoneOf(e))
    ensures Messages(log + [e]) == Extend(Messages(log), e)
    ensures FinishedOk(mac, log + [e]) <==>
      FinishedOk(mac, log) && (IsFinished(e) ==> mac(e.Consumed?, Messages(log)) == Some(e.m.body))
  {
    assert (log + [e])[..|log|] == log;
  }

  // ---- what a trail says of the log ----

  function Sequence(t: Trail): seq<Milestone> {
    if t.Nothing? then [] else Sequence(t.before) + [t.last]
  }

  /** How often a milestone was passed. */
  ghost function Count(log: seq<Event>, m: Milestone): nat {
    if log == [] then 0
    else
      Count(log[..|log| - 1], m) + if MilestoneOf(log[|log| - 1]) == m then 1 else 0
  }

  function Tally(t: Trail, m: Milestone): nat {
    if t.Nothing? then 0 else Tally(t.before, m) + if t.last == m then 1 else 0
  }

  lemma {:induction false} CountIsTally(log: seq<Event>, m: Milestone)
    ensures Count(log, m) == Tally(Milestones(log), m)
  {
    if log != [] {
      CountIsTally(log[..|log| - 1], m);
    }
  }
}
