/** The message flow of a handshake (section 7.3 of RFC 5246), as the trail left on entry to each state. */
module HandshakeFlow {
  import opened Bytes
  import opened HandshakeLog

  datatype State =
    | StartConnect | EnterEarlyData | ReadHelloVerifyRequest | ReadServerHello | Tls13
    | ReadServerCertificate | ReadCertificateStatus | VerifyServerCertificate | ReadServerKeyExchange
    | ReadCertificateRequest | ReadServerHelloDone
    | SendClientCertificate | SendClientKeyExchange | SendClientCertificateVerify | SendClientFinished
    | FinishFlight | ReadSessionTicket | ProcessChangeCipherSpec | ReadServerFinished | FinishClientHandshake | Done

  datatype KeyExchangeAlgorithm = Rsa | Ecdhe | Psk
  datatype Cipher = Cipher(certificateAuth: bool, keyExchange: KeyExchangeAlgorithm, aead: bool)

  /** How far a handshake is from its end. Resuming, the server finishes first. */
  function Rank(s: State, resuming: bool): nat {
    match s
    case StartConnect => 20
    case EnterEarlyData => 19
    case ReadHelloVerifyRequest => 18
    case ReadServerHello => 17
    case Tls13 => 16
    case ReadServerCertificate => 15
    case ReadCertificateStatus => 14
    case VerifyServerCertificate => 13
    case ReadServerKeyExchange => 12
    case ReadCertificateRequest => 11
    case ReadServerHelloDone => 10
    case SendClientCertificate => 9
    case SendClientKeyExchange => 8
    case SendClientCertificateVerify => 7
    case SendClientFinished => if resuming then 3 else 6
    case FinishFlight => if resuming then 2 else 5
    case ReadSessionTicket => if resuming then 6 else 4
    case ProcessChangeCipherSpec => if resuming then 5 else 3
    case ReadServerFinished => if resuming then 4 else 2
    case FinishClientHandshake => 1
    case Done => 0
  }

  // ---- the trail, state by state ----

  predicate Ends(t: Trail, m: Milestone) {
    t.Then? && t.last == m
  }

  /** What the transport and the ServerHello settle: whether messages come over DTLS, the cipher, and which
      further messages were agreed on. */
  datatype Agreed = Agreed(dtls: bool, cipher: Cipher, status: bool, nextProto: bool, channelId: bool, ticket: bool)

  /** What a handshake agreed on: with the server, and whether a certificate was requested, answered with an
      alert for want of one, and proved with a CertificateVerify. */
  datatype Terms = Terms(agreed: Agreed, request: bool, alert: bool, verify: bool)

  /** The client's last messages, under its new keys. */
  function ClientPart(before: Trail, nextProto: bool, channelId: bool): Trail {
    var a := Then(Then(before, SentCcs), WriteKeys);
    var b := if nextProto then Then(a, Wrote(SSL3_MT_NEXT_PROTO)) else a;
    var c := if channelId then Then(b, Wrote(SSL3_MT_CHANNEL_ID)) else b;
    Then(c, Wrote(SSL3_MT_FINISHED))
  }

  /** The trail before the client's last messages. */
  function Base(t: Trail, n: Terms): Trail {
    var a := Before(t);
    var b := if n.agreed.channelId then Before(a) else a;
    var c := if n.agreed.nextProto then Before(b) else b;
    Before(Before(c))
  }

  function Before(t: Trail): Trail {
    if t.Then? then t.before else t
  }

  /** The trails that a TLS 1.2 handshake may have left on entry to a state: those of the state before, and
      what that state adds. A HelloVerifyRequest comes only over DTLS; a status only if agreed on; a
      ServerKeyExchange must come for ECDHE and must not for RSA, and with certificates has a good signature;
      a ticket comes exactly if agreed on. */
  predicate Reached(t: Trail, s: State, resuming: bool, n: Terms)
    decreases 30 - Rank(s, resuming)
  {
    || (s.StartConnect? && t == Nothing)
    || match s
    case EnterEarlyData => Ends(t, Wrote(SSL3_MT_CLIENT_HELLO)) && Reached(t.before, StartConnect, resuming, n)
    case ReadHelloVerifyRequest => Reached(t, EnterEarlyData, resuming, n)
    case ReadServerHello =>
      || Reached(t, EnterEarlyData, resuming, n)
      || (n.agreed.dtls && Ends(t, Wrote(SSL3_MT_CLIENT_HELLO)) && Ends(t.before, Took(DTLS1_MT_HELLO_VERIFY_REQUEST))
          && Reached(t.before.before, ReadHelloVerifyRequest, resuming, n))
    case ReadServerCertificate =>
      Ends(t, Took(SSL3_MT_SERVER_HELLO)) && Reached(t.before, ReadServerHello, resuming, n)
    case ReadCertificateStatus =>
      if n.agreed.cipher.certificateAuth then
        Ends(t, Took(SSL3_MT_CERTIFICATE)) && Reached(t.before, ReadServerCertificate, resuming, n)
      else Reached(t, ReadServerCertificate, resuming, n)
    case VerifyServerCertificate =>
      || Reached(t, ReadCertificateStatus, resuming, n)
      || (n.agreed.status && Ends(t, Took(SSL3_MT_CERTIFICATE_STATUS))
          && Reached(t.before, ReadCertificateStatus, resuming, n))
    case ReadServerKeyExchange =>
      if n.agreed.cipher.certificateAuth then
        Ends(t, CertOk) && Reached(t.before, VerifyServerCertificate, resuming, n)
      else Reached(t, VerifyServerCertificate, resuming, n)
    case ReadCertificateRequest =>
      || (!n.agreed.cipher.keyExchange.Ecdhe? && Reached(t, ReadServerKeyExchange, resuming, n))
      || (!n.agreed.cipher.keyExchange.Rsa? && Ends(t, Took(SSL3_MT_SERVER_KEY_EXCHANGE))
          && (n.agreed.cipher.certificateAuth ==> Ends(t.before, SigOk))
          && Reached(if n.agreed.cipher.certificateAuth then t.before.before else t.before, ReadServerKeyExchange,
                     resuming, n))
    case ReadServerHelloDone =>
      if n.request then
        Ends(t, Took(SSL3_MT_CERTIFICATE_REQUEST)) && Reached(t.before, ReadCertificateRequest, resuming, n)
      else Reached(t, ReadCertificateRequest, resuming, n)
    case SendClientCertificate =>
      Ends(t, Took(SSL3_MT_SERVER_HELLO_DONE)) && Reached(t.before, ReadServerHelloDone, resuming, n)
    case SendClientKeyExchange =>
      if n.request then
        && Ends(t, if n.alert then NoCertificateAlert else Wrote(SSL3_MT_CERTIFICATE))
        && Reached(t.before, SendClientCertificate, resuming, n)
      else Reached(t, SendClientCertificate, resuming, n)
    case SendClientCertificateVerify =>
      Ends(t, Wrote(SSL3_MT_CLIENT_KEY_EXCHANGE)) && Reached(t.before, SendClientKeyExchange, resuming, n)
    case SendClientFinished =>
      if resuming then Ends(t, Took(SSL3_MT_FINISHED)) && Reached(t.before, ReadServerFinished, resuming, n)
      else if n.verify then
        Ends(t, Wrote(SSL3_MT_CERTIFICATE_VERIFY)) && Reached(t.before, SendClientCertificateVerify, resuming, n)
      else Reached(t, SendClientCertificateVerify, resuming, n)
    case FinishFlight =>
      && t == ClientPart(Base(t, n), n.agreed.nextProto, n.agreed.channelId)
      && Reached(Base(t, n), SendClientFinished, resuming, n)
    case ReadSessionTicket =>
      if resuming then Ends(t, Took(SSL3_MT_SERVER_HELLO)) && Reached(t.before, ReadServerHello, resuming, n)
      else Reached(t, FinishFlight, resuming, n)
    case ProcessChangeCipherSpec =>
      if n.agreed.ticket then
        Ends(t, Took(SSL3_MT_NEW_SESSION_TICKET)) && Reached(t.before, ReadSessionTicket, resuming, n)
      else Reached(t, ReadSessionTicket, resuming, n)
    case ReadServerFinished =>
      Ends(t, ReadKeys) && Ends(t.before, GotCcs) && Reached(t.before.before, ProcessChangeCipherSpec, resuming, n)
    case FinishClientHandshake =>
      if resuming then Reached(t, FinishFlight, resuming, n)
      else Ends(t, Took(SSL3_MT_FINISHED)) && Reached(t.before, ReadServerFinished, resuming, n)
    case Done => Reached(t, FinishClientHandshake, resuming, n)
    case _ => false
  }

  /** The same, within a state too; early: early data was offered, gotCcs: the server's ChangeCipherSpec has
      just come. */
  predicate Entered(t: Trail, s: State, resuming: bool, n: Terms, early: bool, gotCcs: bool) {
    if s.ReadServerHello? && early then
      Ends(t, WriteKeys) && Ends(t.before, SentCcs) && Reached(t.before.before, EnterEarlyData, resuming, n)
    else if s.ProcessChangeCipherSpec? && gotCcs then Ends(t, GotCcs) && Reached(t.before, s, resuming, n)
    else Reached(t, s, resuming, n)
  }

  predicate BeforeServerHello(s: State) {
    s.StartConnect? || s.EnterEarlyData? || s.ReadHelloVerifyRequest? || s.ReadServerHello? || s.Tls13?
  }

  // What came before a state, one look back or more.

  /** A full handshake before the server is verified: its certificate, and a status, behind the hellos. */
  lemma {:induction false} LookToHello(t: Trail, n: Terms) returns (u: Trail, status: bool)
    requires Reached(t, ReadServerKeyExchange, false, n)
    ensures Reached(u, ReadServerHello, false, n) && (status ==> n.agreed.status)
    ensures var auth := n.agreed.cipher.certificateAuth;
      var v := Then(u, Took(SSL3_MT_SERVER_HELLO));
      var w := if auth then Then(v, Took(SSL3_MT_CERTIFICATE)) else v;
      var x := if status then Then(w, Took(SSL3_MT_CERTIFICATE_STATUS)) else w;
      t == if auth then Then(x, CertOk) else x
  {
    var auth := n.agreed.cipher.certificateAuth;
    var x := if auth then t.before else t;
    status := !Reached(x, ReadCertificateStatus, false, n);
    var w := if status then x.before else x;
    assert Reached(w, ReadCertificateStatus, false, n);
    var v := if auth then w.before else w;
    assert Reached(v, ReadServerCertificate, false, n);
    u := v.before;
  }

  lemma {:induction false} LookToVerified(t: Trail, n: Terms) returns (u: Trail, ske: bool)
    requires Reached(t, ReadCertificateRequest, false, n)
    ensures Reached(u, ReadServerKeyExchange, false, n)
    ensures var k := n.agreed.cipher.keyExchange; (k.Ecdhe? ==> ske) && (k.Rsa? ==> !ske)
    ensures t == if !ske then u
      else Then(if n.agreed.cipher.certificateAuth then Then(u, SigOk) else u, Took(SSL3_MT_SERVER_KEY_EXCHANGE))
  {
    ske := n.agreed.cipher.keyExchange.Ecdhe? || !Reached(t, ReadServerKeyExchange, false, n);
    u := if !ske then t else if n.agreed.cipher.certificateAuth then t.before.before else t.before;
  }

  lemma {:induction false} LookToKeyExchange(t: Trail, n: Terms) returns (u: Trail)
    requires Reached(t, SendClientCertificate, false, n)
    ensures Reached(u, ReadCertificateRequest, false, n)
    ensures var v := if n.request then Then(u, Took(SSL3_MT_CERTIFICATE_REQUEST)) else u;
      t == Then(v, Took(SSL3_MT_SERVER_HELLO_DONE))
  {
    assert Reached(t.before, ReadServerHelloDone, false, n);
    u := if n.request then t.before.before else t.before;
  }

  lemma {:induction false} LookToHelloDone(t: Trail, n: Terms) returns (u: Trail)
    requires Reached(t, SendClientCertificateVerify, false, n)
    ensures Reached(u, SendClientCertificate, false, n)
    ensures var answer := if n.alert then NoCertificateAlert else Wrote(SSL3_MT_CERTIFICATE);
      t == Then(if n.request then Then(u, answer) else u, Wrote(SSL3_MT_CLIENT_KEY_EXCHANGE))
  {
    assert Reached(t.before, SendClientKeyExchange, false, n);
    u := if n.request then t.before.before else t.before;
  }

  lemma {:induction false} LookToTicket(t: Trail, resuming: bool, n: Terms) returns (u: Trail)
    requires Reached(t, ReadServerFinished, resuming, n)
    ensures Reached(u, ReadSessionTicket, resuming, n)
    ensures t == Then(Then(if n.agreed.ticket then Then(u, Took(SSL3_MT_NEW_SESSION_TICKET)) else u, GotCcs), ReadKeys)
  {
    var v := t.before.before;
    assert Reached(v, ProcessChangeCipherSpec, resuming, n);
    u := if n.agreed.ticket then v.before else v;
  }

  // Terms settled later make no difference to what came before; nor does, before the ServerHello, whether a
  // session will be resumed.

  lemma {:induction false} EarlierTerms(t: Trail, s: State, before: bool, n: Terms, resuming: bool, m: Terms)
    requires BeforeServerHello(s) && Reached(t, s, before, n) && n.agreed.dtls == m.agreed.dtls
    ensures Reached(t, s, resuming, m)
    decreases 30 - Rank(s, before)
  {
    match s
    case StartConnect =>
    case EnterEarlyData => EarlierTerms(t.before, StartConnect, before, n, resuming, m);
    case ReadHelloVerifyRequest => EarlierTerms(t, EnterEarlyData, before, n, resuming, m);
    case ReadServerHello =>
      if Reached(t, EnterEarlyData, before, n) {
        EarlierTerms(t, EnterEarlyData, before, n, resuming, m);
      } else {
        EarlierTerms(t.before.before, ReadHelloVerifyRequest, before, n, resuming, m);
      }
    case _ =>
  }

  lemma {:induction false} HelloTerms(t: Trail, before: bool, n: Terms, resuming: bool, m: Terms)
    requires Reached(t, ReadServerHello, before, n) && n.agreed.dtls == m.agreed.dtls
    ensures Reached(t, ReadServerHello, resuming, m)
  {
    EarlierTerms(t, ReadServerHello, before, n, resuming, m);
  }

  lemma {:induction false} VerifiedTerms(t: Trail, n: Terms, m: Terms)
    requires Reached(t, ReadServerKeyExchange, false, n) && n.agreed == m.agreed
    ensures Reached(t, ReadServerKeyExchange, false, m)
  {
    var u, status := LookToHello(t, n);
    HelloTerms(u, false, n, false, m);
    var v := Then(u, Took(SSL3_MT_SERVER_HELLO));
    assert Reached(v, ReadServerCertificate, false, m);
    var w := if n.agreed.cipher.certificateAuth then Then(v, Took(SSL3_MT_CERTIFICATE)) else v;
    assert Reached(w, ReadCertificateStatus, false, m);
    assert Reached(if status then Then(w, Took(SSL3_MT_CERTIFICATE_STATUS)) else w, VerifyServerCertificate, false, m);
  }

  lemma {:induction false} RequestTerms(t: Trail, n: Terms, m: Terms)
    requires Reached(t, ReadCertificateRequest, false, n) && n.agreed == m.agreed
    ensures Reached(t, ReadCertificateRequest, false, m)
  {
    var u, ske := LookToVerified(t, n);
    VerifiedTerms(u, n, m);
  }

  lemma {:induction false} AlertTerms(t: Trail, n: Terms, m: Terms)
    requires Reached(t, SendClientCertificate, false, n) && n.agreed == m.agreed && n.request == m.request
    ensures Reached(t, SendClientCertificate, false, m)
  {
    var u := LookToKeyExchange(t, n);
    RequestTerms(u, n, m);
    RequestStep(u, m);
  }

  lemma {:induction false} VerifyTerms(t: Trail, n: Terms, m: Terms)
    requires Reached(t, SendClientCertificateVerify, false, n) && m == n.(verify := m.verify)
    ensures Reached(t, SendClientCertificateVerify, false, m)
  {
    var u := LookToHelloDone(t, n);
    AlertTerms(u, n, m);
    ClientCertificateStep(u, m);
  }

  // From one state to the next, where that takes more than one look.

  lemma {:induction false} HelloStep(t: Trail, resuming: bool, n: Terms)
    requires Reached(t, ReadServerHello, resuming, n)
    ensures Reached(Then(t, Took(SSL3_MT_SERVER_HELLO)), if resuming then ReadSessionTicket else ReadServerCertificate,
      resuming, n)
  {
  }

  lemma {:induction false} HelloVerifyStep(t: Trail, resuming: bool, n: Terms)
    requires Reached(t, ReadHelloVerifyRequest, resuming, n) && n.agreed.dtls
    ensures Reached(t, ReadServerHello, resuming, n)
    ensures Reached(Then(Then(t, Took(DTLS1_MT_HELLO_VERIFY_REQUEST)), Wrote(SSL3_MT_CLIENT_HELLO)), ReadServerHello,
      resuming, n)
  {
  }

  lemma {:induction false} CertificateStep(t: Trail, n: Terms)
    requires Reached(t, ReadServerCertificate, false, n)
    ensures Reached(if n.agreed.cipher.certificateAuth then Then(t, Took(SSL3_MT_CERTIFICATE)) else t,
      ReadCertificateStatus, false, n)
  {
  }

  lemma {:induction false} VerificationStep(t: Trail, n: Terms)
    requires Reached(t, VerifyServerCertificate, false, n)
    ensures Reached(if n.agreed.cipher.certificateAuth then Then(t, CertOk) else t, ReadServerKeyExchange, false, n)
  {
  }

  lemma {:induction false} RequestStep(t: Trail, n: Terms)
    requires Reached(t, ReadCertificateRequest, false, n)
    ensures Reached(if n.request then Then(t, Took(SSL3_MT_CERTIFICATE_REQUEST)) else t, ReadServerHelloDone, false, n)
  {
  }

  lemma {:induction false} ClientCertificateStep(t: Trail, n: Terms)
    requires Reached(t, SendClientCertificate, false, n)
    ensures var answer := if n.alert then NoCertificateAlert else Wrote(SSL3_MT_CERTIFICATE);
      Reached(if n.request then Then(t, answer) else t, SendClientKeyExchange, false, n)
  {
  }

  lemma {:induction false} VerifyStep(t: Trail, n: Terms)
    requires Reached(t, SendClientCertificateVerify, false, n)
    ensures Reached(if n.verify then Then(t, Wrote(SSL3_MT_CERTIFICATE_VERIFY)) else t, SendClientFinished, false, n)
  {
  }

  lemma {:induction false} TicketStep(t: Trail, resuming: bool, n: Terms)
    requires Reached(t, ReadSessionTicket, resuming, n)
    ensures Reached(if n.agreed.ticket then Then(t, Took(SSL3_MT_NEW_SESSION_TICKET)) else t, ProcessChangeCipherSpec,
      resuming, n)
  {
  }

  lemma {:induction false} ServerFinishedStep(t: Trail, resuming: bool, n: Terms)
    requires Reached(t, ReadServerFinished, resuming, n)
    ensures Reached(Then(t, Took(SSL3_MT_FINISHED)), if resuming then SendClientFinished else FinishClientHandshake,
      resuming, n)
  {
  }

  // ---- the flow, message by message ----

  /** The optional messages: which of them were exchanged. */
  datatype Options = Options(helloVerify: bool, status: bool, serverKeyExchange: bool, alert: bool,
    certificateVerify: bool)

  /** What the flow of a handshake depends on. */
  datatype Flow = Flow(cipher: Cipher, certRequest: bool, nextProto: bool, channelId: bool, options: Options)

  function Hellos(f: Flow): seq<Milestone> {
    (if f.options.helloVerify then [Wrote(SSL3_MT_CLIENT_HELLO), Took(DTLS1_MT_HELLO_VERIFY_REQUEST)] else [])
    + [Wrote(SSL3_MT_CLIENT_HELLO), Took(SSL3_MT_SERVER_HELLO)]
  }

  function CertificateMessages(f: Flow): seq<Milestone> {
    (if f.cipher.certificateAuth then [Took(SSL3_MT_CERTIFICATE)] else [])
    + (if f.options.status then [Took(SSL3_MT_CERTIFICATE_STATUS)] else [])
    + (if f.cipher.certificateAuth then [CertOk] else [])
  }

  function KeyExchangeMessages(f: Flow): seq<Milestone> {
    (if f.options.serverKeyExchange && f.cipher.certificateAuth then [SigOk] else [])
    + (if f.options.serverKeyExchange then [Took(SSL3_MT_SERVER_KEY_EXCHANGE)] else [])
  }

  function ServerMessages(f: Flow): seq<Milestone> {
    CertificateMessages(f) + KeyExchangeMessages(f)
    + (if f.certRequest then [Took(SSL3_MT_CERTIFICATE_REQUEST)] else [])
    + [Took(SSL3_MT_SERVER_HELLO_DONE)]
  }

  function ClientMessages(f: Flow): seq<Milestone> {
    (if f.certRequest then [if f.options.alert then NoCertificateAlert else Wrote(SSL3_MT_CERTIFICATE)] else [])
    + [Wrote(SSL3_MT_CLIENT_KEY_EXCHANGE)]
    + (if f.options.certificateVerify then [Wrote(SSL3_MT_CERTIFICATE_VERIFY)] else [])
  }

  function ClientLast(f: Flow): seq<Milestone> {
    [SentCcs, WriteKeys]
    + (if f.nextProto then [Wrote(SSL3_MT_NEXT_PROTO)] else [])
    + (if f.channelId then [Wrote(SSL3_MT_CHANNEL_ID)] else [])
    + [Wrote(SSL3_MT_FINISHED)]
  }

  function ServerLast(ticket: bool): seq<Milestone> {
    (if ticket then [Took(SSL3_MT_NEW_SESSION_TICKET)] else []) + [GotCcs, ReadKeys, Took(SSL3_MT_FINISHED)]
  }

  /** A full handshake up to the client's Finished. */
  function FullFlight(f: Flow): seq<Milestone> {
    Hellos(f) + ServerMessages(f) + ClientMessages(f) + ClientLast(f)
  }

  /** A whole handshake: the client's Finished first, or on resumption the server's. */
  function WholeFlow(resuming: bool, f: Flow, ticket: bool): seq<Milestone> {
    if resuming then Hellos(f) + ServerLast(ticket) + ClientLast(f) else FullFlight(f) + ServerLast(ticket)
  }

  // ---- every trail is a flow ----

  lemma {:induction false} HelloFlow(t: Trail, resuming: bool, n: Terms) returns (f: Flow)
    requires Ends(t, Took(SSL3_MT_SERVER_HELLO)) && Reached(t.before, ReadServerHello, resuming, n)
    ensures Sequence(t) == Hellos(f) && (f.options.helloVerify ==> n.agreed.dtls)
  {
    var u := t.before;
    var verify := !Reached(u, EnterEarlyData, resuming, n);
    f := Flow(Cipher(false, Rsa, false), false, false, false, Options(verify, false, false, false, false));
    var first := if verify then u.before.before else u;
    assert Reached(first, EnterEarlyData, resuming, n) && Reached(first.before, StartConnect, resuming, n);
    assert Sequence(first) == [Wrote(SSL3_MT_CLIENT_HELLO)];
    if verify {
      assert Sequence(u.before) == [Wrote(SSL3_MT_CLIENT_HELLO), Took(DTLS1_MT_HELLO_VERIFY_REQUEST)];
    }
  }

  lemma {:induction false} VerifiedFlow(t: Trail, n: Terms) returns (f: Flow)
    requires Reached(t, ReadServerKeyExchange, false, n)
    ensures Sequence(t) == Hellos(f) + CertificateMessages(f) && f.cipher == n.agreed.cipher
    ensures (f.options.helloVerify ==> n.agreed.dtls) && (f.options.status ==> n.agreed.status)
  {
    var u, status := LookToHello(t, n);
    var v := Then(u, Took(SSL3_MT_SERVER_HELLO));
    f := HelloFlow(v, false, n);
    f := f.(cipher := n.agreed.cipher, options := f.options.(status := status));
    var certificate := if n.agreed.cipher.certificateAuth then [Took(SSL3_MT_CERTIFICATE)] else [];
    var w := if n.agreed.cipher.certificateAuth then Then(v, Took(SSL3_MT_CERTIFICATE)) else v;
    assert Sequence(w) == Hellos(f) + certificate;
    var more := if status then [Took(SSL3_MT_CERTIFICATE_STATUS)] else [];
    assert Sequence(if status then Then(w, Took(SSL3_MT_CERTIFICATE_STATUS)) else w) == Sequence(w) + more;
    Appended(Hellos(f), certificate, more, if n.agreed.cipher.certificateAuth then [CertOk] else []);
  }

  /** Of the messages that are the server's to send or not, those exchanged were allowed. */
  predicate Allowed(f: Flow, a: Agreed) {
    && f.cipher == a.cipher && (f.options.helloVerify ==> a.dtls) && (f.options.status ==> a.status)
    && (a.cipher.keyExchange.Ecdhe? ==> f.options.serverKeyExchange)
    && (a.cipher.keyExchange.Rsa? ==> !f.options.serverKeyExchange)
  }

  lemma {:induction false} KeyExchangeFlow(t: Trail, n: Terms) returns (f: Flow)
    requires Reached(t, ReadCertificateRequest, false, n)
    ensures Sequence(t) == Hellos(f) + (CertificateMessages(f) + KeyExchangeMessages(f)) && Allowed(f, n.agreed)
  {
    var u, ske := LookToVerified(t, n);
    f := VerifiedFlow(u, n);
    f := f.(options := f.options.(serverKeyExchange := ske));
    if ske {
      var sign := if n.agreed.cipher.certificateAuth then [SigOk] else [];
      assert Sequence(t.before) == Sequence(u) + sign;
      Appended(Hellos(f), CertificateMessages(f), sign, [Took(SSL3_MT_SERVER_KEY_EXCHANGE)]);
      Regroup(CertificateMessages(f), sign, [Took(SSL3_MT_SERVER_KEY_EXCHANGE)]);
    } else {
      assert KeyExchangeMessages(f) == [];
    }
  }

  lemma {:induction false} Appended(s: seq<Milestone>, a: seq<Milestone>, b: seq<Milestone>, c: seq<Milestone>)
    ensures s + (a + b + c) == s + a + b + c
  {
  }

  lemma {:induction false} RequestFlow(t: Trail, n: Terms) returns (f: Flow)
    requires Reached(t, SendClientCertificate, false, n)
    ensures Sequence(t) == Hellos(f) + ServerMessages(f) && Allowed(f, n.agreed) && f.certRequest == n.request
  {
    var u := LookToKeyExchange(t, n);
    f := KeyExchangeFlow(u, n);
    var messages := CertificateMessages(f) + KeyExchangeMessages(f);
    var more := if n.request then [Took(SSL3_MT_CERTIFICATE_REQUEST)] else [];
    assert Sequence(t.before) == Sequence(u) + more;
    Appended(Hellos(f), messages, more, [Took(SSL3_MT_SERVER_HELLO_DONE)]);
    f := f.(certRequest := n.request);
    assert ServerMessages(f) == messages + more + [Took(SSL3_MT_SERVER_HELLO_DONE)];
  }

  /** The flow is on the terms: all that they say of its messages is so. */
  predicate OnTerms(f: Flow, n: Terms) {
    && Allowed(f, n.agreed) && f.certRequest == n.request
    && f.nextProto == n.agreed.nextProto && f.channelId == n.agreed.channelId
    && f.options.certificateVerify == n.verify && f.options.alert == n.alert
  }

  lemma {:induction false} ClientFlow(t: Trail, n: Terms) returns (f: Flow)
    requires Reached(t, SendClientFinished, false, n)
    ensures Sequence(t) == Hellos(f) + ServerMessages(f) + ClientMessages(f) && OnTerms(f, n)
  {
    var u := if n.verify then t.before else t;
    var messages;
    f, messages := ClientKeyExchangeFlow(u, n);
    var more := if n.verify then [Wrote(SSL3_MT_CERTIFICATE_VERIFY)] else [];
    assert Sequence(t) == Sequence(u) + more;
    Regroup(Hellos(f) + ServerMessages(f), messages, more);
  }

  lemma {:induction false} ClientKeyExchangeFlow(t: Trail, n: Terms) returns (f: Flow, messages: seq<Milestone>)
    requires Reached(t, SendClientCertificateVerify, false, n)
    ensures Sequence(t) == Hellos(f) + ServerMessages(f) + messages && OnTerms(f, n)
    ensures messages
      == (if n.request then [if f.options.alert then NoCertificateAlert else Wrote(SSL3_MT_CERTIFICATE)] else [])
      + [Wrote(SSL3_MT_CLIENT_KEY_EXCHANGE)]
  {
    var v := LookToHelloDone(t, n);
    f := RequestFlow(v, n);
    var first := if n.request then [if n.alert then NoCertificateAlert else Wrote(SSL3_MT_CERTIFICATE)] else [];
    assert Sequence(t.before) == Sequence(v) + first;
    Regroup(Hellos(f) + ServerMessages(f), first, [Wrote(SSL3_MT_CLIENT_KEY_EXCHANGE)]);
    messages := first + [Wrote(SSL3_MT_CLIENT_KEY_EXCHANGE)];
    f := f.(nextProto := n.agreed.nextProto, channelId := n.agreed.channelId,
      options := f.options.(alert := n.alert, certificateVerify := n.verify));
  }

  lemma {:induction false} ClientLastTrail(t: Trail, f: Flow)
    ensures Sequence(ClientPart(t, f.nextProto, f.channelId)) == Sequence(t) + ClientLast(f)
  {
    var a := Then(Then(t, SentCcs), WriteKeys);
    assert Sequence(Then(t, SentCcs)) == Sequence(t) + [SentCcs];
    assert Sequence(a) == Sequence(t) + [SentCcs, WriteKeys];
    var b := if f.nextProto then Then(a, Wrote(SSL3_MT_NEXT_PROTO)) else a;
    assert Sequence(b) == Sequence(t)
      + ([SentCcs, WriteKeys] + if f.nextProto then [Wrote(SSL3_MT_NEXT_PROTO)] else []);
    var c := if f.channelId then Then(b, Wrote(SSL3_MT_CHANNEL_ID)) else b;
    assert Sequence(c) == Sequence(b) + if f.channelId then [Wrote(SSL3_MT_CHANNEL_ID)] else [];
  }

  /** The trail of a full handshake after the client's Finished is that of a flow on the terms agreed. */
  lemma {:induction false} FullFlightOf(t: Trail, n: Terms) returns (f: Flow)
    requires Reached(t, FinishFlight, false, n)
    ensures Sequence(t) == FullFlight(f) && OnTerms(f, n)
  {
    f := ClientFlow(Base(t, n), n);
    ClientLastTrail(Base(t, n), f);
  }

  lemma {:induction false} ServerLastTrail(t: Trail, resuming: bool, n: Terms) returns (u: Trail)
    requires Ends(t, Took(SSL3_MT_FINISHED)) && Reached(t.before, ReadServerFinished, resuming, n)
    ensures Reached(u, ReadSessionTicket, resuming, n) && Sequence(t) == Sequence(u) + ServerLast(n.agreed.ticket)
  {
    var a := t.before.before.before;
    u := LookToTicket(t.before, resuming, n);
    var more := if n.agreed.ticket then [Took(SSL3_MT_NEW_SESSION_TICKET)] else [];
    assert Sequence(a) == Sequence(u) + more;
    assert Sequence(t.before.before) == Sequence(a) + [GotCcs];
    assert Sequence(t.before) == Sequence(a) + [GotCcs, ReadKeys];
    assert Sequence(t) == Sequence(a) + [GotCcs, ReadKeys, Took(SSL3_MT_FINISHED)];
    Regroup(Sequence(u), more, [GotCcs, ReadKeys, Took(SSL3_MT_FINISHED)]);
  }

  /** A whole trail is that of a flow on the terms agreed, with a ticket exactly if that was agreed on. */
  lemma {:induction false} WholeFlowOf(t: Trail, resuming: bool, n: Terms) returns (f: Flow)
    requires Reached(t, Done, resuming, n)
    ensures Sequence(t) == WholeFlow(resuming, f, n.agreed.ticket)
    ensures if resuming then ResumedOn(f, n.agreed) else OnTerms(f, n)
  {
    assert Reached(t, FinishClientHandshake, resuming, n);
    if resuming {
      assert Reached(t, FinishFlight, true, n);
      f := ResumedFlow(t, n);
    } else {
      f := FullFlow(t, n);
    }
  }

  lemma {:induction false} FullFlow(t: Trail, n: Terms) returns (f: Flow)
    requires Ends(t, Took(SSL3_MT_FINISHED)) && Reached(t.before, ReadServerFinished, false, n)
    ensures Sequence(t) == WholeFlow(false, f, n.agreed.ticket) && OnTerms(f, n)
  {
    var u := ServerLastTrail(t, false, n);
    assert Reached(u, FinishFlight, false, n);
    f := FullFlightOf(u, n);
  }

  lemma {:induction false} ResumedFlow(t: Trail, n: Terms) returns (f: Flow)
    requires Reached(t, FinishFlight, true, n)
    ensures Sequence(t) == WholeFlow(true, f, n.agreed.ticket) && ResumedOn(f, n.agreed)
  {
    var u := ServerLastTrail(Base(t, n), true, n);
    f := HelloFlow(u, true, n);
    f := f.(nextProto := n.agreed.nextProto, channelId := n.agreed.channelId);
    ClientLastTrail(Base(t, n), f);
  }

  /** What the terms say of the messages of a resumption. */
  predicate ResumedOn(f: Flow, a: Agreed) {
    (f.options.helloVerify ==> a.dtls) && f.nextProto == a.nextProto && f.channelId == a.channelId
  }

  // ---- how often ----

  /** The marks of either side's end. */
  predicate IsLast(m: Milestone) {
    m == SentCcs || m == WriteKeys || m == Wrote(SSL3_MT_FINISHED) || m == GotCcs || m == ReadKeys ||
      m == Took(SSL3_MT_FINISHED)
  }

  lemma {:induction false} NoneInHellos(t: Trail, s: State, resuming: bool, n: Terms, m: Milestone)
    requires IsLast(m) && BeforeServerHello(s) && Reached(t, s, resuming, n)
    ensures Tally(t, m) == 0
    decreases 30 - Rank(s, resuming)
  {
    match s
    case StartConnect =>
    case EnterEarlyData => NoneInHellos(t.before, StartConnect, resuming, n, m);
    case ReadHelloVerifyRequest => NoneInHellos(t, EnterEarlyData, resuming, n, m);
    case ReadServerHello =>
      if Reached(t, EnterEarlyData, resuming, n) {
        NoneInHellos(t, EnterEarlyData, resuming, n, m);
      } else {
        NoneInHellos(t.before.before, ReadHelloVerifyRequest, resuming, n, m);
        assert Tally(t.before, m) == 0;
      }
    case _ =>
  }

  lemma {:induction false} NoneVerified(t: Trail, n: Terms, m: Milestone)
    requires IsLast(m) && Reached(t, ReadServerKeyExchange, false, n)
    ensures Tally(t, m) == 0
  {
    var u, status := LookToHello(t, n);
    NoneInHellos(u, ReadServerHello, false, n, m);
    var v := Then(u, Took(SSL3_MT_SERVER_HELLO));
    var w := if n.agreed.cipher.certificateAuth then Then(v, Took(SSL3_MT_CERTIFICATE)) else v;
    assert Tally(v, m) == 0;
    assert Tally(w, m) == 0;
    assert Tally(if status then Then(w, Took(SSL3_MT_CERTIFICATE_STATUS)) else w, m) == 0;
  }

  lemma {:induction false} NoneFromServer(t: Trail, n: Terms, m: Milestone)
    requires IsLast(m) && Reached(t, SendClientCertificate, false, n)
    ensures Tally(t, m) == 0
  {
    var u := LookToKeyExchange(t, n);
    var v, ske := LookToVerified(u, n);
    NoneVerified(v, n, m);
    assert Tally(if n.agreed.cipher.certificateAuth then Then(v, SigOk) else v, m) == 0;
    assert Tally(u, m) == 0;
    assert Tally(t.before, m) == 0;
  }

  lemma {:induction false} NoneYet(t: Trail, n: Terms, m: Milestone)
    requires IsLast(m) && Reached(t, SendClientFinished, false, n)
    ensures Tally(t, m) == 0
  {
    var u := if n.verify then t.before else t;
    var v := LookToHelloDone(u, n);
    NoneFromServer(v, n, m);
    assert Tally(u.before, m) == 0;
    assert Tally(u, m) == 0;
  }

  lemma {:induction false} ClientTally(t: Trail, n: Terms, m: Milestone)
    requires IsLast(m)
    ensures Tally(ClientPart(t, n.agreed.nextProto, n.agreed.channelId), m)
      == Tally(t, m) + if m == SentCcs || m == WriteKeys || m == Wrote(SSL3_MT_FINISHED) then 1 else 0
  {
    var a := Then(Then(t, SentCcs), WriteKeys);
    assert Tally(a, m) == Tally(t, m) + if m == SentCcs || m == WriteKeys then 1 else 0;
    var b := if n.agreed.nextProto then Then(a, Wrote(SSL3_MT_NEXT_PROTO)) else a;
    assert Tally(b, m) == Tally(a, m);
    var c := if n.agreed.channelId then Then(b, Wrote(SSL3_MT_CHANNEL_ID)) else b;
    assert Tally(c, m) == Tally(a, m);
  }

  lemma {:induction false} ServerTally(t: Trail, resuming: bool, n: Terms, m: Milestone) returns (u: Trail)
    requires IsLast(m) && Ends(t, Took(SSL3_MT_FINISHED)) && Reached(t.before, ReadServerFinished, resuming, n)
    ensures Reached(u, ReadSessionTicket, resuming, n)
    ensures Tally(t, m) == Tally(u, m) + if m == GotCcs || m == ReadKeys || m == Took(SSL3_MT_FINISHED) then 1 else 0
  {
    var a := t.before.before.before;
    u := LookToTicket(t.before, resuming, n);
    assert Tally(a, m) == Tally(u, m);
    assert Tally(t.before, m) == Tally(a, m) + if m == GotCcs || m == ReadKeys then 1 else 0;
  }

  lemma {:induction false} ResumedOnce(t: Trail, n: Terms, m: Milestone)
    requires IsLast(m) && Reached(t, FinishFlight, true, n)
    ensures Tally(t, m) == 1
  {
    var u := ServerTally(Base(t, n), true, n, m);
    NoneInHellos(u.before, ReadServerHello, true, n, m);
    assert Tally(u, m) == 0;
    ClientTally(Base(t, n), n, m);
  }

  lemma {:induction false} FullOnce(t: Trail, n: Terms, m: Milestone)
    requires IsLast(m) && Ends(t, Took(SSL3_MT_FINISHED)) && Reached(t.before, ReadServerFinished, false, n)
    ensures Tally(t, m) == 1
  {
    var u := ServerTally(t, false, n, m);
    assert Reached(u, FinishFlight, false, n);
    NoneYet(Base(u, n), n, m);
    ClientTally(Base(u, n), n, m);
  }

  /** Each side changes keys once and finishes once. */
  lemma {:induction false} FinishedOnce(t: Trail, resuming: bool, n: Terms, m: Milestone)
    requires IsLast(m) && Reached(t, Done, resuming, n)
    ensures Tally(t, m) == 1
  {
    assert Reached(t, FinishClientHandshake, resuming, n);
    if resuming {
      ResumedOnce(t, n, m);
    } else {
      FullOnce(t, n, m);
    }
  }

  /** What a log with a whole trail says: the flow it is of, and that each side changed keys and finished once. */
  lemma {:induction false} WholeLog(log: seq<Event>, resuming: bool, n: Terms) returns (f: Flow)
    requires Reached(Milestones(log), Done, resuming, n)
    ensures Sequence(Milestones(log)) == WholeFlow(resuming, f, n.agreed.ticket)
    ensures forall m :: IsLast(m) ==> Count(log, m) == 1
    ensures if resuming then ResumedOn(f, n.agreed) else OnTerms(f, n)
  {
    f := WholeFlowOf(Milestones(log), resuming, n);
    forall m | IsLast(m) ensures Count(log, m) == 1 {
      CountIsTally(log, m);
      FinishedOnce(Milestones(log), resuming, n, m);
    }
  }
}
