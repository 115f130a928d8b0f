/** The TLS client handshake of handshake_client.cc and its driver in handshake.cc, up to TLS 1.2.
    Cryptography, parsing and callbacks answer through an environment, afresh for every step. */
module ClientHandshake {
  import opened Bytes
  import opened Ssl
  import opened HandshakeLog
  import opened HandshakeFlow

  const TLS1_2_VERSION: nat := 0x0303
  const TLS1_3_VERSION: nat := 0x0304
  const SSL3_VERSION: nat := 0x0300

  /** ssl_hs_wait_t */
  datatype HsWait =
    | Ok | Error | Flush | ReadServerHelloMessage | ReadMessage | ReadChangeCipherSpec
    | CertificateVerify | X509Lookup | ChannelIdLookup | PrivateKeyOperation | EarlyReturn | EarlyDataRejected

  /** The TLS 1.3 handshake waits for no ChangeCipherSpec. */
  type Tls13Wait = w: HsWait | w != ReadChangeCipherSpec witness Ok

  /** What is fallible in a step. */
  datatype Op =
    | VersionRange | Random | WriteClientHello | AddMessageOp | AddCcs | ChangeKeys | EarlyKeys | ParseMessage
    | SupportedVersion | NewSession | KnownCipher | AllowedCipher | SessionMatches | HashMessage | NullCompression
    | ServerHelloExtensions | ExtendedMasterSecret | TokenBinding | ParseCertificates | LeafCertificate
    | SignatureAlgorithm | Signature | CertificateSelected | KeyExchange | MasterSecret | ChannelIdCallback
    | RecordHashes | DuplicateSession | StowTicket | FinishedLength | AddAlertOp | TranscriptInit

  datatype VerifyResult = VerifyOk | VerifyInvalid | VerifyRetry
  datatype SignResult = SignSuccess | SignFailure | SignRetry

  /** What a ServerHello says. */
  datatype Hello = Hello(
    version: nat, cipher: Cipher, matchesSessionId: bool, echoesSessionId: bool, extensions: Extensions)

  /** What its extensions negotiate. */
  datatype Extensions = Extensions(ticketExpected: bool, certificateStatusExpected: bool, nextProto: bool, alpn: bool,
    channelId: bool)

  /** The answers a step gets. body: what the messages it writes hold. */
  datatype Env = Env(
    ok: Op -> bool, body: seq<byte>, sessionUsable: bool, offersEarlyData: bool, hello: Hello,
    verify: VerifyResult, certCallback: int, hasCertificate: bool, sign: SignResult, hasChannelIdKey: bool,
    ticketEmpty: bool, tls13: Tls13Wait)

  /** One answer of the transport: a result, the messages a record completed, or a record to ignore. */
  datatype Io = Io(ret: int, messages: seq<SSLMessage>, discarded: bool)

  datatype Resolution = Resolved | Again | Return(ret: int)

  /** States that wait for a message. */
  predicate Reads(s: State) {
    s.ReadHelloVerifyRequest? || s.ReadServerHello? || s.ReadServerCertificate? || s.ReadCertificateStatus?
    || s.ReadServerKeyExchange? || s.ReadCertificateRequest? || s.ReadServerHelloDone? || s.ReadSessionTicket? ||
      s.ReadServerFinished?
  }

  predicate AllOk(env: Env) {
    forall op: Op :: env.ok(op)
  }

  /** What is settled on entry to a state, but for the messages: whether a session is resumed, and that
      no certificate was requested before its time. */
  predicate Settled(s: State, dtls: bool, session: bool, reused: bool, request: bool) {
    || (s.StartConnect? && !request)
    || match s
    case EnterEarlyData => !reused && !request
    case ReadHelloVerifyRequest => dtls && !reused && !request
    case ReadServerHello => !reused && !request
    case ReadServerCertificate => !session && !reused && !request
    case ReadCertificateStatus => !session && !reused && !request
    case VerifyServerCertificate => !session && !reused && !request
    case ReadServerKeyExchange => !session && !reused && !request
    case ReadCertificateRequest => !session && !reused && !request
    case ReadServerHelloDone => !session && !reused
    case SendClientCertificate => !session && !reused
    case SendClientKeyExchange => !session && !reused
    case SendClientCertificateVerify => !session && !reused
    case StartConnect => false
    case Tls13 => false
    case _ => session == reused
  }

  /** The server's ticket, if it agreed on one, is yet to come. */
  predicate TicketAhead(s: State, resuming: bool) {
    && !s.ProcessChangeCipherSpec? && !s.ReadServerFinished? && !s.FinishClientHandshake? && !s.Done?
    && !(resuming && (s.SendClientFinished? || s.FinishFlight?))
  }

  class Handshake {
    const isDtls: bool
    const mac: FinishedMac
    /** The raw form of the n-th message. */
    const frame: (nat, byte, seq<byte>) -> seq<byte>
    const falseStartMode: bool
    const falseStartWithoutAlpn: bool

    var state: State
    var wait: HsWait
    /** ssl->session is set: a session is offered, and after the ServerHello resumed. */
    var session: bool
    var sessionReused: bool
    var newSession: bool
    var version: nat
    var haveVersion: bool
    var usesTls13: bool
    var cipher: Cipher
    var initialHandshakeComplete: bool
    var handshakeFinalized: bool
    var earlyDataOffered: bool
    var inEarlyData: bool
    var canEarlyWrite: bool
    var inFalseStart: bool
    /** What the ServerHello negotiated; an empty ticket takes ticketExpected back. */
    var negotiated: Extensions
    var ticketExpected: bool
    var certRequest: bool

    var incoming: seq<SSLMessage>
    var transcript: seq<byte>
    var written: nat
    ghost var log: seq<Event>
    /** Whether the client had a certificate when it was to send one, and when it was to prove it. */
    ghost var certificate: bool
    ghost var signer: bool

    constructor (isDtls: bool, mac: FinishedMac, frame: (nat, byte, seq<byte>) -> seq<byte>, falseStartMode: bool,
      falseStartWithoutAlpn: bool, session: bool, renegotiation: bool, version: nat)
      ensures Good(false) && state == StartConnect && wait == Ok && log == [] &&
        initialHandshakeComplete == renegotiation
    {
      this.isDtls, this.mac, this.frame, this.falseStartMode, this.falseStartWithoutAlpn := isDtls, mac, frame,
        falseStartMode, falseStartWithoutAlpn;
      state, wait, this.session, sessionReused, newSession := StartConnect, Ok, session, false, false;
      this.version, haveVersion, usesTls13, cipher := version, renegotiation, false, Cipher(false, Rsa, false);
      initialHandshakeComplete, handshakeFinalized := renegotiation, false;
      earlyDataOffered, inEarlyData, canEarlyWrite, inFalseStart := false, false, false, false;
      negotiated, certRequest := Extensions(false, false, false, false, false), false;
      ticketExpected, certificate, signer := false, false, false;
      incoming, transcript, written, log := [], [], 0, [];
    }

    // ---- the invariant ----

    /** The transcript is exactly the messages since the last HelloVerifyRequest, and each Finished holds
        the MAC of the messages before it. */
    ghost predicate LogOk()
      reads this
    {
      transcript == Messages(log) && FinishedOk(mac, log)
    }

    ghost function TermsOf(): Terms
      reads this
    {
      Terms(AgreedOn(), certRequest, certRequest && !certificate && version == SSL3_VERSION, certRequest && signer)
    }

    ghost function AgreedOn(): Agreed
      reads this
    {
      Agreed(isDtls, cipher, negotiated.certificateStatusExpected, negotiated.nextProto, negotiated.channelId,
        negotiated.ticketExpected)
    }

    ghost predicate OnTrack(gotCcs: bool)
      reads this
    {
      if usesTls13 then state.Tls13? || state.FinishClientHandshake? || state.Done?
      else
        && Entered(Milestones(log), state, session, TermsOf(), earlyDataOffered && !isDtls, gotCcs)
        && Settled(state, isDtls, session, sessionReused, certRequest)
        && (TicketAhead(state, session) ==> ticketExpected == negotiated.ticketExpected)
    }

    /** Between steps: what has happened is what the state says, and no state was completed twice. */
    ghost predicate Good(gotCcs: bool)
      reads this
    {
      LogOk() && OnTrack(gotCcs) && (state.Done? ==> handshakeFinalized && initialHandshakeComplete)
    }

    /** A step that does not fail keeps all that, and moves the handshake on or leaves its state. */
    twostate predicate StepOk(w: HsWait)
      reads this
    {
      w != Error ==>
        && Good(false)
        && (state == old(state) || Rank(state, session) < Rank(old(state), old(session)))
        && (w == Ok ==> state != old(state))
        && (w == ReadChangeCipherSpec <==> state == ProcessChangeCipherSpec)
        && (w == EarlyReturn ==> LeftEarly())
    }

    /** Where a handshake may be left for the application to write: in TLS 1.3, after the early keys, or,
        at False Start, after the last flight of a full handshake. */
    ghost predicate LeftEarly()
      reads this
    {
      || usesTls13
      || (state == ReadServerHello && !isDtls && earlyDataOffered && inEarlyData && canEarlyWrite)
      || (state == ReadSessionTicket && !session && FalseStarts() && inFalseStart && canEarlyWrite)
    }

    /** The version is the one known if any, and before TLS 1.3 no early data was offered and the session
        identifier is echoed only to resume the session offered. */
    ghost predicate HelloFits(hello: Hello)
      reads this
    {
      && (haveVersion ==> hello.version == version)
      && (hello.version < TLS1_3_VERSION ==> !earlyDataOffered)
      && (hello.version < TLS1_3_VERSION && hello.echoesSessionId ==>
        !initialHandshakeComplete && session && hello.matchesSessionId)
    }

    /** Nothing the environment, the peer or the session says speaks against the step. */
    ghost predicate Agreeable(env: Env)
      reads this
    {
      match state
      case ReadServerHello => incoming == [] || (incoming[0].typ == SSL3_MT_SERVER_HELLO && HelloFits(env.hello))
      case Tls13 => env.tls13 != Error
      case ReadServerCertificate => incoming == [] || !cipher.certificateAuth || incoming[0].typ == SSL3_MT_CERTIFICATE
      case VerifyServerCertificate => !cipher.certificateAuth || !env.verify.VerifyInvalid?
      case ReadServerKeyExchange => incoming == [] ||
        if incoming[0].typ == SSL3_MT_SERVER_KEY_EXCHANGE then !cipher.keyExchange.Rsa? else !cipher.keyExchange.Ecdhe?
      case ReadCertificateRequest => incoming == [] || !cipher.certificateAuth ||
        incoming[0].typ == SSL3_MT_SERVER_HELLO_DONE || incoming[0].typ == SSL3_MT_CERTIFICATE_REQUEST
      case ReadServerHelloDone => incoming == [] ||
        (incoming[0].typ == SSL3_MT_SERVER_HELLO_DONE && incoming[0].body == [])
      case SendClientCertificate => !certRequest || env.certCallback != 0
      case SendClientCertificateVerify => !certRequest || !env.hasCertificate || !env.sign.SignFailure?
      case SendClientFinished => forall t: seq<byte> :: mac(false, t).Some?
      case ReadSessionTicket => incoming == [] || !ticketExpected ||
        incoming[0].typ == SSL3_MT_NEW_SESSION_TICKET
      case ReadServerFinished => incoming == [] || AwaitedFinished()
      case _ => true
    }

    // ---- what steps are made of ----

    ghost method Note(e: Event)
      modifies this`log
      ensures log == old(log) + [e]
      ensures Messages(log) == Extend(old(Messages(log)), e)
      ensures Milestones(log) == Then(old(Milestones(log)), MilestoneOf(e))
      ensures old(FinishedOk(mac, log) && (IsFinished(e) ==> mac(e.Consumed?, Messages(log)) == Some(e.m.body))) ==>
        FinishedOk(mac, log)
    {
      LogGrows(mac, log, e);
      log := log + [e];
    }

    /** get_message: the message awaited, until next_message. */
    function GetMessage(): Option<SSLMessage>
      reads this
    {
      if incoming == [] then None else Some(incoming[0])
    }

    /** The message awaited is there and of that type. */
    predicate Next(typ: byte)
      reads this
    {
      incoming != [] && incoming[0].typ == typ
    }

    /** next_message, after the message was hashed (or needs no hashing). */
    method NextMessage()
      requires incoming != [] && FinishedOk(mac, log)
      requires incoming[0].typ != DTLS1_MT_HELLO_VERIFY_REQUEST ==> transcript == Messages(log) + incoming[0].raw
      requires incoming[0].typ == SSL3_MT_FINISHED ==> mac(true, Messages(log)) == Some(incoming[0].body)
      modifies this`incoming, this`log
      ensures incoming == old(incoming)[1..] && log == old(log) + [Consumed(old(incoming)[0])] && FinishedOk(mac, log)
      ensures Messages(log) == Extend(old(Messages(log)), Consumed(old(incoming)[0]))
      ensures var e := Consumed(old(incoming)[0]);
        Milestones(log) == Then(old(Milestones(log)), MilestoneOf(e))
    {
      Note(Consumed(incoming[0]));
      incoming := incoming[1..];
    }

    /** add_message: framed, queued, and hashed. */
    method AddMessage(env: Env, typ: byte, body: seq<byte>) returns (ok: bool)
      requires LogOk()
      requires typ == SSL3_MT_FINISHED ==> mac(false, transcript) == Some(body)
      modifies this`transcript, this`log, this`written
      ensures LogOk()
      ensures ok ==> Milestones(log) == Then(old(Milestones(log)), Wrote(typ))
      ensures !ok ==> log == old(log)
      ensures AllOk(env) ==> ok
    {
      if !env.ok(AddMessageOp) {
        return false;
      }
      var m := SSLMessage(typ, body, frame(written, typ, body));
      written := written + 1;
      transcript := transcript + m.raw;
      Note(Sent(m));
      return true;
    }

    /** add_change_cipher_spec: no part of the transcript. */
    method AddChangeCipherSpec(env: Env) returns (ok: bool)
      requires LogOk()
      modifies this`log
      ensures LogOk() && (ok ==> Milestones(log) == Then(old(Milestones(log)), SentCcs)) && (!ok ==> log == old(log))
      ensures AllOk(env) ==> ok
    {
      if !env.ok(AddCcs) {
        return false;
      }
      Note(SentChangeCipherSpec);
      return true;
    }

    /** tls1_change_cipher_state */
    method ChangeCipherState(env: Env, writing: bool) returns (ok: bool)
      requires LogOk()
      modifies this`log
      ensures LogOk() && (!ok ==> log == old(log))
      ensures ok ==> Milestones(log) == Then(old(Milestones(log)), if writing then WriteKeys else ReadKeys)
      ensures AllOk(env) ==> ok
    {
      if !env.ok(ChangeKeys) {
        return false;
      }
      Note(if writing then NewWriteKeys else NewReadKeys);
      return true;
    }

    /** ssl_write_client_hello */
    method WriteClientHelloMessage(env: Env) returns (ok: bool)
      requires LogOk()
      modifies this`transcript, this`log, this`written, this`earlyDataOffered
      ensures LogOk() && (ok ==> Milestones(log) == Then(old(Milestones(log)), Wrote(SSL3_MT_CLIENT_HELLO)))
      ensures ok ==> earlyDataOffered == env.offersEarlyData
      ensures AllOk(env) ==> ok
    {
      if !env.ok(WriteClientHello) {
        return false;
      }
      earlyDataOffered := env.offersEarlyData;
      ok := AddMessage(env, SSL3_MT_CLIENT_HELLO, env.body);
    }

    /** The message awaited, of the type wanted: checked, hashed, parsed and consumed. The parts of the
        handshake that read one do so in this order, and a failure on the way ends the handshake. */
    method Take(env: Env, typ: byte, parsed: bool) returns (w: HsWait)
      requires LogOk() && typ != SSL3_MT_FINISHED && typ != DTLS1_MT_HELLO_VERIFY_REQUEST
      modifies this`transcript, this`incoming, this`log
      ensures w == Ok || w == Error || w == ReadMessage
      ensures w == ReadMessage ==> old(incoming) == [] && log == old(log) && LogOk()
      ensures w == Ok ==> old(Next(typ)) && incoming == old(incoming)[1..] && LogOk()
      ensures w == Ok ==> Milestones(log) == Then(old(Milestones(log)), Took(typ))
      ensures AllOk(env) && (old(incoming) != [] ==> parsed && old(incoming)[0].typ == typ) ==> w != Error
      ensures w == ReadMessage <==> old(incoming) == []
    {
      var msg := GetMessage();
      if msg.None? {
        return ReadMessage;
      }
      if msg.value.typ != typ || !env.ok(HashMessage) {
        return Error;
      }
      transcript := transcript + msg.value.raw;
      if !parsed {
        return Error;
      }
      NextMessage();
      return Ok;
    }

    // ---- the steps ----

    /** The handshake goes over to a state once what the state says has happened. */
    method Enter(s: State)
      requires s != Done && LogOk() && !usesTls13
      requires TicketAhead(s, session) ==> ticketExpected == negotiated.ticketExpected
      requires Entered(Milestones(log), s, session, TermsOf(), earlyDataOffered && !isDtls, false)
      requires Settled(s, isDtls, session, sessionReused, certRequest)
      modifies this`state
      ensures Good(false) && state == s
    {
      state := s;
    }

    /** do_start_connect */
    method DoStartConnect(env: Env) returns (w: HsWait)
      requires Good(false) && state == StartConnect
      modifies this`sessionReused, this`session, this`transcript, this`log, this`written, this`earlyDataOffered,
        this`state
      ensures StepOk(w)
      ensures AllOk(env) && old(Agreeable(env)) ==> w != Error
      ensures w != Error ==> w == Flush && session == (old(session) && env.sessionUsable)
      ensures w != Error ==> earlyDataOffered == env.offersEarlyData
    {
      sessionReused := false;
      if !env.ok(VersionRange) {
        return Error;
      }
      if session && !env.sessionUsable {
        session := false;
      }
      if !env.ok(Random) {
        return Error;
      }
      var ok := WriteClientHelloMessage(env);
      if !ok {
        return Error;
      }
      AfterClientHello();
      return Flush;
    }

    method AfterClientHello()
      requires LogOk() && !usesTls13 && !sessionReused && !certRequest && ticketExpected == negotiated.ticketExpected
      requires Milestones(log) == Then(Nothing, Wrote(SSL3_MT_CLIENT_HELLO))
      modifies this`state
      ensures Good(false) && state == EnterEarlyData && Rank(state, session) < Rank(StartConnect, session)
    {
      assert Reached(Nothing, StartConnect, session, TermsOf());
      state := EnterEarlyData;
    }

    /** do_enter_early_data */
    method DoEnterEarlyData(env: Env) returns (w: HsWait)
      requires Good(false) && state == EnterEarlyData
      modifies this`log, this`inEarlyData, this`canEarlyWrite, this`state
      ensures StepOk(w)
      ensures AllOk(env) && old(Agreeable(env)) ==> w != Error
    {
      if isDtls {
        Enter(ReadHelloVerifyRequest);
        return Ok;
      }
      if !earlyDataOffered {
        Enter(ReadServerHello);
        return Ok;
      }
      w := StartEarlyData(env);
    }

    /** The end of do_enter_early_data: early keys, and data may be written. */
    method StartEarlyData(env: Env) returns (w: HsWait)
      requires Good(false) && state == EnterEarlyData && !isDtls && earlyDataOffered
      modifies this`log, this`inEarlyData, this`canEarlyWrite, this`state
      ensures w == Error || (w == EarlyReturn && Good(false) && state == ReadServerHello && inEarlyData &&
        canEarlyWrite)
      ensures AllOk(env) ==> w != Error
    {
      ghost var before := Milestones(log);
      var ok := SendEarlyKeys(env);
      if !ok {
        return Error;
      }
      AfterEarlyKeys(before);
      return EarlyReturn;
    }

    method AfterEarlyKeys(ghost before: Trail)
      requires LogOk() && !usesTls13 && !isDtls && earlyDataOffered && !sessionReused && !certRequest
      requires ticketExpected == negotiated.ticketExpected && Reached(before, EnterEarlyData, session, TermsOf())
      requires Milestones(log) == Then(Then(before, SentCcs), WriteKeys)
      modifies this`state, this`inEarlyData, this`canEarlyWrite
      ensures Good(false) && state == ReadServerHello && inEarlyData && canEarlyWrite
    {
      inEarlyData, canEarlyWrite := true, true;
      state := ReadServerHello;
    }

    method SendEarlyKeys(env: Env) returns (ok: bool)
      requires LogOk()
      modifies this`log
      ensures LogOk() && (ok ==> Milestones(log) == Then(Then(old(Milestones(log)), SentCcs), WriteKeys))
      ensures AllOk(env) ==> ok
    {
      ok := AddChangeCipherSpec(env);
      if ok && env.ok(EarlyKeys) {
        Note(NewWriteKeys);
      } else {
        ok := false;
      }
    }

    /** do_read_hello_verify_request: the transcript starts again with the second ClientHello. */
    method DoReadHelloVerifyRequest(env: Env) returns (w: HsWait)
      requires Good(false) && state == ReadHelloVerifyRequest
      modifies this`incoming, this`transcript, this`log, this`written, this`earlyDataOffered, this`state
      ensures StepOk(w)
      ensures AllOk(env) && old(Agreeable(env)) ==> w != Error
      ensures old(incoming) == [] ==> w == ReadMessage && state == old(state)
      ensures old(incoming) != [] && w != Error ==> state == ReadServerHello
      ensures old(Next(DTLS1_MT_HELLO_VERIFY_REQUEST)) && w != Error ==> w == Flush && incoming == old(incoming)[1..]
      ensures !old(Next(DTLS1_MT_HELLO_VERIFY_REQUEST)) ==>
        w != Flush && incoming == old(incoming) && log == old(log) && transcript == old(transcript)
    {
      if incoming == [] {
        return ReadMessage;
      }
      ghost var before := Milestones(log);
      w := Ok;
      if incoming[0].typ == DTLS1_MT_HELLO_VERIFY_REQUEST {
        w := AnswerHelloVerifyRequest(env);
        if w == Error {
          return;
        }
      }
      AfterHelloVerify(before);
    }

    method AfterHelloVerify(ghost before: Trail)
      requires LogOk() && !usesTls13 && isDtls && !sessionReused && !certRequest &&
        ticketExpected == negotiated.ticketExpected
      requires Reached(before, ReadHelloVerifyRequest, session, TermsOf())
      requires var again := Then(Then(before, Took(DTLS1_MT_HELLO_VERIFY_REQUEST)), Wrote(SSL3_MT_CLIENT_HELLO));
        Milestones(log) == before || Milestones(log) == again
      modifies this`state
      ensures Good(false) && state == ReadServerHello
      ensures Rank(state, session) < Rank(ReadHelloVerifyRequest, session)
    {
      HelloVerifyStep(before, session, TermsOf());
      state := ReadServerHello;
    }

    /** A HelloVerifyRequest is consumed, and the transcript starts again with a second ClientHello. */
    method AnswerHelloVerifyRequest(env: Env) returns (w: HsWait)
      requires LogOk() && incoming != [] && incoming[0].typ == DTLS1_MT_HELLO_VERIFY_REQUEST
      modifies this`incoming, this`transcript, this`log, this`written, this`earlyDataOffered
      ensures w == Flush || w == Error
      ensures w == Flush ==> LogOk() && incoming == old(incoming)[1..]
      ensures var t := Then(old(Milestones(log)), Took(DTLS1_MT_HELLO_VERIFY_REQUEST));
        w == Flush ==> Milestones(log) == Then(t, Wrote(SSL3_MT_CLIENT_HELLO))
      ensures AllOk(env) ==> w != Error
    {
      if !env.ok(ParseMessage) {
        return Error;
      }
      NextMessage();
      if !env.ok(TranscriptInit) {
        return Error;
      }
      transcript := [];
      var ok := WriteClientHelloMessage(env);
      return if ok then Flush else Error;
    }

    /** The checks of do_read_server_hello on version, session and cipher. */
    method AcceptServerHello(env: Env) returns (w: HsWait)
      requires !usesTls13 && !sessionReused
      modifies this`version, this`haveVersion, this`usesTls13, this`sessionReused, this`session, this`newSession,
        this`cipher
      ensures w == Ok <==> usesTls13
      ensures w != Error ==>
        haveVersion && version == env.hello.version && (usesTls13 <==> version >= 0x0304) &&
        (old(haveVersion) ==> version == old(version))
      ensures w == ReadMessage && env.hello.echoesSessionId ==> sessionReused
      ensures w == ReadMessage ==> env.hello.version < TLS1_3_VERSION && !earlyDataOffered
      ensures w == ReadMessage ==> session == sessionReused && cipher == env.hello.cipher
      ensures w == Ok || w == Error || w == ReadMessage
      ensures w == ReadMessage ==>
        sessionReused == (!initialHandshakeComplete && old(session) && env.hello.matchesSessionId)
      ensures AllOk(env) && old(HelloFits(env.hello)) ==> w != Error
    {
      if !env.ok(ParseMessage) || !env.ok(SupportedVersion) {
        return Error;
      }
      if !haveVersion {
        version, haveVersion := env.hello.version, true;
      } else if env.hello.version != version {
        return Error;
      }
      if version >= TLS1_3_VERSION {
        usesTls13 := true;
        return Ok;
      }
      if earlyDataOffered {
        return Error;
      }
      if !initialHandshakeComplete && session && env.hello.matchesSessionId {
        sessionReused := true;
      } else {
        if env.hello.echoesSessionId {
          return Error;
        }
        session := false;
        if !env.ok(NewSession) {
          return Error;
        }
        newSession := true;
      }
      if !env.ok(KnownCipher) || !env.ok(AllowedCipher) || (session && !env.ok(SessionMatches)) {
        return Error;
      }
      cipher := env.hello.cipher;
      return ReadMessage;
    }

    /** do_read_server_hello */
    method DoReadServerHello(env: Env) returns (w: HsWait)
      requires Good(false) && state == ReadServerHello
      modifies this`version, this`haveVersion, this`usesTls13, this`sessionReused, this`session, this`newSession,
        this`cipher, this`transcript, this`negotiated, this`ticketExpected, this`incoming, this`log, this`state
      ensures StepOk(w)
      ensures AllOk(env) && old(Agreeable(env)) ==> w != Error
      ensures w == Ok ==>
        state == if usesTls13 then Tls13 else if session then ReadSessionTicket else ReadServerCertificate
      ensures w == Ok && !usesTls13 ==> negotiated == env.hello.extensions && cipher == env.hello.cipher
      ensures w == Ok ==>
        old(Next(SSL3_MT_SERVER_HELLO)) && incoming == if usesTls13 then old(incoming) else old(incoming)[1..]
    {
      var msg := GetMessage();
      if msg.None? {
        return ReadServerHelloMessage;
      }
      if msg.value.typ != SSL3_MT_SERVER_HELLO {
        return Error;
      }
      w := FollowServerHello(env);
    }

    /** Where an accepted ServerHello leads. */
    method FollowServerHello(env: Env) returns (w: HsWait)
      requires Good(false) && state == ReadServerHello && Next(SSL3_MT_SERVER_HELLO)
      modifies this`version, this`haveVersion, this`usesTls13, this`sessionReused, this`session, this`newSession,
        this`cipher, this`transcript, this`negotiated, this`ticketExpected, this`incoming, this`log, this`state
      ensures w == Error || w == Ok
      ensures AllOk(env) && old(HelloFits(env.hello)) ==> w != Error
      ensures w == Ok ==> Good(false) && Rank(state, session) < Rank(ReadServerHello, old(session))
      ensures w == Ok ==>
        state == if usesTls13 then Tls13 else if session then ReadSessionTicket else ReadServerCertificate
      ensures w == Ok && !usesTls13 ==> negotiated == env.hello.extensions && cipher == env.hello.cipher
      ensures w == Ok ==> incoming == if usesTls13 then old(incoming) else old(incoming)[1..]
    {
      ghost var offered, terms := session, TermsOf();
      w := AcceptServerHello(env);
      if w == Error {
        return;
      }
      if w == Ok {
        EnterTls13();
      } else {
        w := ConsumeServerHello(env, offered, terms);
      }
    }

    method EnterTls13()
      requires LogOk() && usesTls13 && state == ReadServerHello
      modifies this`state
      ensures Good(false) && state == Tls13
      ensures forall offered: bool :: Rank(state, session) < Rank(ReadServerHello, offered)
    {
      state := Tls13;
    }

    /** The rest of do_read_server_hello: the message joins the transcript, and the handshake is full or resumed. */
    method ConsumeServerHello(env: Env, ghost offered: bool, ghost terms: Terms) returns (w: HsWait)
      requires LogOk() && state == ReadServerHello && !earlyDataOffered && !certRequest && !usesTls13 &&
        session == sessionReused
      requires Reached(Milestones(log), ReadServerHello, offered, terms) && terms.agreed.dtls == isDtls
      requires incoming != [] && incoming[0].typ == SSL3_MT_SERVER_HELLO
      modifies this`transcript, this`negotiated, this`ticketExpected, this`incoming, this`log, this`state
      ensures w == Error || w == Ok
      ensures w == Ok ==> Good(false) && negotiated == env.hello.extensions
      ensures forall offered: bool :: w == Ok ==> Rank(state, session) < Rank(ReadServerHello, offered)
      ensures AllOk(env) ==> w != Error
      ensures w == Ok ==>
        state == (if session then ReadSessionTicket else ReadServerCertificate) && incoming == old(incoming)[1..]
    {
      ghost var before := Milestones(log);
      var parsed := env.ok(NullCompression) && env.ok(ServerHelloExtensions) &&
        (session ==> env.ok(ExtendedMasterSecret)) && env.ok(TokenBinding);
      w := Take(env, SSL3_MT_SERVER_HELLO, parsed);
      if w == Ok {
        AfterServerHello(env.hello.extensions, before, offered, terms);
      }
    }

    /** The handshake is full or resumed. */
    method AfterServerHello(extensions: Extensions, ghost before: Trail, ghost offered: bool, ghost terms: Terms)
      requires LogOk() && !usesTls13 && !certRequest && session == sessionReused
      requires Reached(before, ReadServerHello, offered, terms) && terms.agreed.dtls == isDtls
      requires Milestones(log) == Then(before, Took(SSL3_MT_SERVER_HELLO))
      modifies this`negotiated, this`ticketExpected, this`state
      ensures Good(false) && state == if session then ReadSessionTicket else ReadServerCertificate
      ensures negotiated == extensions
      ensures forall offered: bool :: Rank(state, session) < Rank(ReadServerHello, offered)
    {
      negotiated, ticketExpected := extensions, extensions.ticketExpected;
      HelloTerms(before, offered, terms, session, TermsOf());
      HelloStep(before, session, TermsOf());
      if session {
        Enter(ReadSessionTicket);
      } else {
        Enter(ReadServerCertificate);
      }
    }

    /** do_tls13 */
    method DoTls13(env: Env) returns (w: HsWait)
      requires Good(false) && state == Tls13
      modifies this`state
      ensures StepOk(w) && w == env.tls13
      ensures AllOk(env) && old(Agreeable(env)) ==> w != Error
      ensures state == if w == Ok then FinishClientHandshake else Tls13
    {
      w := env.tls13;
      if w == Ok {
        state := FinishClientHandshake;
      }
    }

    /** do_read_server_certificate */
    method DoReadServerCertificate(env: Env) returns (w: HsWait)
      requires Good(false) && state == ReadServerCertificate
      modifies this`transcript, this`incoming, this`log, this`state
      ensures StepOk(w)
      ensures AllOk(env) && old(Agreeable(env)) ==> w != Error
    {
      ghost var before := Milestones(log);
      if cipher.certificateAuth {
        w := Take(env, SSL3_MT_CERTIFICATE, env.ok(ParseCertificates) && env.ok(LeafCertificate));
        if w != Ok {
          return;
        }
      }
      AfterServerCertificate(before);
      w := Ok;
    }

    method AfterServerCertificate(ghost before: Trail)
      requires LogOk() && !usesTls13 && !session && !sessionReused && !certRequest &&
        ticketExpected == negotiated.ticketExpected
      requires Reached(before, ReadServerCertificate, false, TermsOf())
      requires Milestones(log) == if cipher.certificateAuth then Then(before, Took(SSL3_MT_CERTIFICATE)) else before
      modifies this`state
      ensures Good(false) && state == ReadCertificateStatus
      ensures Rank(state, session) < Rank(ReadServerCertificate, session)
    {
      CertificateStep(before, TermsOf());
      state := ReadCertificateStatus;
    }

    /** do_read_certificate_status: the server may change its mind about sending one. */
    method DoReadCertificateStatus(env: Env) returns (w: HsWait)
      requires Good(false) && state == ReadCertificateStatus
      modifies this`transcript, this`incoming, this`log, this`state
      ensures StepOk(w)
      ensures AllOk(env) && old(Agreeable(env)) ==> w != Error
      ensures w == ReadMessage ==> old(incoming) == [] && negotiated.certificateStatusExpected
      ensures var due := old(negotiated.certificateStatusExpected && Next(SSL3_MT_CERTIFICATE_STATUS));
        w == Ok ==> incoming == if due then old(incoming)[1..] else old(incoming)
    {
      if negotiated.certificateStatusExpected {
        if incoming == [] {
          return ReadMessage;
        }
        if incoming[0].typ == SSL3_MT_CERTIFICATE_STATUS {
          w := Take(env, SSL3_MT_CERTIFICATE_STATUS, env.ok(ParseMessage));
          if w != Ok {
            return;
          }
        }
      }
      Enter(VerifyServerCertificate);
      w := Ok;
    }

    /** do_verify_server_certificate */
    method DoVerifyServerCertificate(env: Env) returns (w: HsWait)
      requires Good(false) && state == VerifyServerCertificate
      modifies this`log, this`state
      ensures StepOk(w)
      ensures AllOk(env) && old(Agreeable(env)) ==> w != Error
      ensures w == if !cipher.certificateAuth || env.verify.VerifyOk? then Ok
        else if env.verify.VerifyRetry? then CertificateVerify else Error
      ensures w != Ok ==> log == old(log) && state == old(state)
      ensures w == Ok ==>
        state == ReadServerKeyExchange && log == if cipher.certificateAuth then old(log) + [CertificateOk] else old(log)
    {
      ghost var before := Milestones(log);
      if cipher.certificateAuth {
        if env.verify.VerifyInvalid? {
          return Error;
        }
        if env.verify.VerifyRetry? {
          return CertificateVerify;
        }
        Note(CertificateOk);
      }
      AfterVerification(before);
      return Ok;
    }

    method AfterVerification(ghost before: Trail)
      requires LogOk() && !usesTls13 && !session && !sessionReused && !certRequest &&
        ticketExpected == negotiated.ticketExpected
      requires Reached(before, VerifyServerCertificate, false, TermsOf())
      requires Milestones(log) == if cipher.certificateAuth then Then(before, CertOk) else before
      modifies this`state
      ensures Good(false) && state == ReadServerKeyExchange
      ensures Rank(state, session) < Rank(VerifyServerCertificate, session)
    {
      VerificationStep(before, TermsOf());
      state := ReadServerKeyExchange;
    }

    /** do_read_server_key_exchange: optional for some ciphers, and signed for those with certificates. */
    method DoReadServerKeyExchange(env: Env) returns (w: HsWait)
      requires Good(false) && state == ReadServerKeyExchange
      modifies this`transcript, this`incoming, this`log, this`state
      ensures StepOk(w)
      ensures AllOk(env) && old(Agreeable(env)) ==> w != Error
      ensures w == Ok ==>
        incoming == if old(Next(SSL3_MT_SERVER_KEY_EXCHANGE)) then old(incoming)[1..] else old(incoming)
    {
      var msg := GetMessage();
      if msg.None? {
        return ReadMessage;
      }
      if msg.value.typ != SSL3_MT_SERVER_KEY_EXCHANGE {
        if cipher.keyExchange.Ecdhe? {
          return Error;
        }
        Enter(ReadCertificateRequest);
        return Ok;
      }
      w := ConsumeServerKeyExchange(env);
    }

    method ConsumeServerKeyExchange(env: Env) returns (w: HsWait)
      requires Good(false) && state == ReadServerKeyExchange && incoming != [] &&
        incoming[0].typ == SSL3_MT_SERVER_KEY_EXCHANGE
      modifies this`transcript, this`incoming, this`log, this`state
      ensures StepOk(w) && (w == Ok || w == Error) && (w == Ok ==> incoming == old(incoming)[1..])
      ensures AllOk(env) && !cipher.keyExchange.Rsa? ==> w != Error
    {
      if cipher.keyExchange.Rsa? || !env.ok(ParseMessage) {
        return Error;
      }
      var ok := CheckSignature(env);
      if !ok {
        return Error;
      }
      w := Take(env, SSL3_MT_SERVER_KEY_EXCHANGE, true);
      if w == Ok {
        Enter(ReadCertificateRequest);
      }
    }

    method CheckSignature(env: Env) returns (ok: bool)
      requires LogOk()
      modifies this`log
      ensures LogOk() && (ok ==> Milestones(log) == if cipher.certificateAuth then Then(old(Milestones(log)), SigOk)
        else old(Milestones(log)))
      ensures AllOk(env) ==> ok
    {
      ok := !cipher.certificateAuth || (env.ok(SignatureAlgorithm) && env.ok(Signature));
      if ok && cipher.certificateAuth {
        Note(SignatureOk);
      }
    }

    /** do_read_certificate_request: none, if the message is ServerHelloDone already. */
    method DoReadCertificateRequest(env: Env) returns (w: HsWait)
      requires Good(false) && state == ReadCertificateRequest
      modifies this`transcript, this`incoming, this`log, this`state, this`certRequest
      ensures StepOk(w)
      ensures AllOk(env) && old(Agreeable(env)) ==> w != Error
      ensures !cipher.certificateAuth || old(Next(SSL3_MT_SERVER_HELLO_DONE)) ==>
        w == Ok && incoming == old(incoming) && log == old(log)
      ensures w == Ok ==> state == ReadServerHelloDone
      ensures w == Ok ==> if certRequest then old(Next(SSL3_MT_CERTIFICATE_REQUEST)) && incoming == old(incoming)[1..]
        else incoming == old(incoming)
    {
      if cipher.certificateAuth {
        if incoming == [] {
          return ReadMessage;
        }
        if incoming[0].typ != SSL3_MT_SERVER_HELLO_DONE {
          w := TakeCertificateRequest(env);
          return;
        }
      }
      Enter(ReadServerHelloDone);
      w := Ok;
    }

    method TakeCertificateRequest(env: Env) returns (w: HsWait)
      requires Good(false) && state == ReadCertificateRequest && incoming != []
      modifies this`transcript, this`incoming, this`log, this`state, this`certRequest
      ensures w == Error || (w == Ok && Good(false) && state == ReadServerHelloDone)
      ensures AllOk(env) && old(Next(SSL3_MT_CERTIFICATE_REQUEST)) ==> w != Error
      ensures w == Ok ==> certRequest && old(Next(SSL3_MT_CERTIFICATE_REQUEST)) && incoming == old(incoming)[1..]
    {
      ghost var before := Milestones(log);
      w := Take(env, SSL3_MT_CERTIFICATE_REQUEST, env.ok(ParseMessage));
      if w == Ok {
        AfterCertificateRequest(before);
      }
    }

    method AfterCertificateRequest(ghost before: Trail)
      requires LogOk() && !usesTls13 && !session && !sessionReused && ticketExpected == negotiated.ticketExpected
      requires Reached(before, ReadCertificateRequest, false, TermsOf())
      requires Milestones(log) == Then(before, Took(SSL3_MT_CERTIFICATE_REQUEST))
      modifies this`state, this`certRequest
      ensures Good(false) && state == ReadServerHelloDone && certRequest
    {
      ghost var terms := TermsOf();
      certRequest := true;
      RequestTerms(before, terms, TermsOf());
      RequestStep(before, TermsOf());
      state := ReadServerHelloDone;
    }

    /** do_read_server_hello_done */
    method DoReadServerHelloDone(env: Env) returns (w: HsWait)
      requires Good(false) && state == ReadServerHelloDone
      modifies this`transcript, this`incoming, this`log, this`state
      ensures StepOk(w)
      ensures AllOk(env) && old(Agreeable(env)) ==> w != Error
    {
      ghost var before := Milestones(log);
      w := Take(env, SSL3_MT_SERVER_HELLO_DONE, incoming != [] && incoming[0].body == []);
      if w == Ok {
        AfterServerHelloDone(before);
      }
    }

    method AfterServerHelloDone(ghost before: Trail)
      requires LogOk() && !usesTls13 && !session && !sessionReused && ticketExpected == negotiated.ticketExpected
      requires Reached(before, ReadServerHelloDone, false, TermsOf())
      requires Milestones(log) == Then(before, Took(SSL3_MT_SERVER_HELLO_DONE))
      modifies this`state
      ensures Good(false) && state == SendClientCertificate
      ensures Rank(state, session) < Rank(ReadServerHelloDone, session)
    {
      state := SendClientCertificate;
    }

    /** do_send_client_certificate: SSL 3.0 sends an alert in place of an empty Certificate. */
    method DoSendClientCertificate(env: Env) returns (w: HsWait)
      requires Good(false) && state == SendClientCertificate
      modifies this`transcript, this`log, this`written, this`state, this`certificate
      ensures StepOk(w)
      ensures AllOk(env) && old(Agreeable(env)) ==> w != Error
      ensures w == Ok ==> state == SendClientKeyExchange && certificate == env.hasCertificate
      ensures w == X509Lookup ==> log == old(log) && state == old(state)
    {
      ghost var before := Milestones(log);
      if certRequest {
        w := SendCertificate(env);
        if w != Ok {
          return;
        }
      }
      AfterClientCertificate(env.hasCertificate, before);
      w := Ok;
    }

    method AfterClientCertificate(ghost had: bool, ghost before: Trail)
      requires LogOk() && !usesTls13 && !session && !sessionReused && ticketExpected == negotiated.ticketExpected
      requires Reached(before, SendClientCertificate, false, TermsOf())
      requires Milestones(log) == if !certRequest then before
        else Then(before, if !had && version == SSL3_VERSION then NoCertificateAlert else Wrote(SSL3_MT_CERTIFICATE))
      modifies this`state, this`certificate
      ensures Good(false) && state == SendClientKeyExchange && certificate == had
      ensures Rank(state, session) < Rank(SendClientCertificate, session)
    {
      ghost var terms := TermsOf();
      certificate := had;
      AlertTerms(before, terms, TermsOf());
      ClientCertificateStep(before, TermsOf());
      Enter(SendClientKeyExchange);
    }

    method SendCertificate(env: Env) returns (w: HsWait)
      requires LogOk()
      modifies this`transcript, this`log, this`written
      ensures w == Ok || w == Error || w == X509Lookup
      ensures w != Error ==> LogOk()
      ensures w == Ok ==>
        Milestones(log) == Then(old(Milestones(log)),
          if !env.hasCertificate && version == SSL3_VERSION then NoCertificateAlert else Wrote(SSL3_MT_CERTIFICATE))
      ensures w == X509Lookup ==> log == old(log)
      ensures AllOk(env) && env.certCallback != 0 ==> w != Error
    {
      if env.certCallback == 0 {
        return Error;
      }
      if env.certCallback < 0 {
        return X509Lookup;
      }
      if !env.hasCertificate && version == SSL3_VERSION {
        if !env.ok(AddAlertOp) {
          return Error;
        }
        Note(SentAlert);
        return Ok;
      }
      if !env.ok(CertificateSelected) {
        return Error;
      }
      var ok := AddMessage(env, SSL3_MT_CERTIFICATE, env.body);
      return if ok then Ok else Error;
    }

    /** do_send_client_key_exchange */
    method DoSendClientKeyExchange(env: Env) returns (w: HsWait)
      requires Good(false) && state == SendClientKeyExchange
      modifies this`transcript, this`log, this`written, this`state
      ensures StepOk(w)
      ensures AllOk(env) && old(Agreeable(env)) ==> w != Error
    {
      ghost var before := Milestones(log);
      if !env.ok(KeyExchange) {
        return Error;
      }
      var ok := AddMessage(env, SSL3_MT_CLIENT_KEY_EXCHANGE, env.body);
      if !ok || !env.ok(MasterSecret) {
        return Error;
      }
      AfterClientKeyExchange(before);
      return Ok;
    }

    method AfterClientKeyExchange(ghost before: Trail)
      requires LogOk() && !usesTls13 && !session && !sessionReused && ticketExpected == negotiated.ticketExpected
      requires Reached(before, SendClientKeyExchange, false, TermsOf())
      requires Milestones(log) == Then(before, Wrote(SSL3_MT_CLIENT_KEY_EXCHANGE))
      modifies this`state
      ensures Good(false) && state == SendClientCertificateVerify
      ensures Rank(state, session) < Rank(SendClientKeyExchange, session)
    {
      state := SendClientCertificateVerify;
    }

    /** do_send_client_certificate_verify: nothing is sent before the signature is there. */
    method DoSendClientCertificateVerify(env: Env) returns (w: HsWait)
      requires Good(false) && state == SendClientCertificateVerify
      modifies this`transcript, this`log, this`written, this`state, this`signer
      ensures StepOk(w)
      ensures AllOk(env) && old(Agreeable(env)) ==> w != Error
      ensures w == Ok ==> state == SendClientFinished && signer == env.hasCertificate
      ensures w == PrivateKeyOperation ==> log == old(log) && state == old(state)
    {
      ghost var before := Milestones(log);
      w := Ok;
      if certRequest && env.hasCertificate {
        w := SendCertificateVerify(env);
      }
      if w == Ok {
        AfterCertificateVerify(env.hasCertificate, before);
      }
    }

    method AfterCertificateVerify(ghost had: bool, ghost before: Trail)
      requires LogOk() && !usesTls13 && !session && !sessionReused && ticketExpected == negotiated.ticketExpected
      requires Reached(before, SendClientCertificateVerify, false, TermsOf())
      requires Milestones(log) == if certRequest && had then Then(before, Wrote(SSL3_MT_CERTIFICATE_VERIFY)) else before
      modifies this`state, this`signer
      ensures Good(false) && state == SendClientFinished && signer == had
      ensures Rank(state, session) < Rank(SendClientCertificateVerify, session)
    {
      ghost var terms := TermsOf();
      signer := had;
      VerifyTerms(before, terms, TermsOf());
      VerifyStep(before, TermsOf());
      Enter(SendClientFinished);
    }

    method SendCertificateVerify(env: Env) returns (w: HsWait)
      requires LogOk()
      modifies this`transcript, this`log, this`written
      ensures w == Ok || w == Error || w == PrivateKeyOperation
      ensures w == PrivateKeyOperation ==> LogOk() && log == old(log)
      ensures w == Ok ==> LogOk() && Milestones(log) == Then(old(Milestones(log)), Wrote(SSL3_MT_CERTIFICATE_VERIFY))
      ensures AllOk(env) && !env.sign.SignFailure? ==> w != Error
    {
      if !env.ok(SignatureAlgorithm) || env.sign.SignFailure? {
        return Error;
      }
      if env.sign.SignRetry? {
        return PrivateKeyOperation;
      }
      var ok := AddMessage(env, SSL3_MT_CERTIFICATE_VERIFY, env.body);
      return if ok then Ok else Error;
    }

    /** ssl_send_finished */
    method SendFinished(env: Env) returns (ok: bool)
      requires LogOk()
      modifies this`transcript, this`log, this`written
      ensures LogOk() && (ok ==> Milestones(log) == Then(old(Milestones(log)), Wrote(SSL3_MT_FINISHED)))
      ensures AllOk(env) && mac(false, old(transcript)).Some? ==> ok
    {
      var finished := mac(false, transcript);
      if finished.None? || !env.ok(FinishedLength) {
        return false;
      }
      ok := AddMessage(env, SSL3_MT_FINISHED, finished.value);
    }

    /** ChangeCipherSpec, the new keys, and what they protect first. */
    method SendLastFlight(env: Env) returns (ok: bool)
      requires LogOk()
      modifies this`transcript, this`log, this`written
      ensures LogOk() &&
        (ok ==> Milestones(log) == ClientPart(old(Milestones(log)), negotiated.nextProto, negotiated.channelId))
      ensures AllOk(env) && (forall t: seq<byte> :: mac(false, t).Some?) ==> ok
    {
      ok := AddChangeCipherSpec(env);
      if ok {
        ok := ChangeCipherState(env, true);
      }
      if ok && negotiated.nextProto {
        ok := AddMessage(env, SSL3_MT_NEXT_PROTO, env.body);
      }
      if ok && negotiated.channelId {
        ok := AddMessage(env, SSL3_MT_CHANNEL_ID, env.body);
      }
      if ok {
        ok := SendFinished(env);
      }
    }

    /** do_send_client_finished: the Channel ID key is looked up before anything is sent. */
    method DoSendClientFinished(env: Env) returns (w: HsWait)
      requires Good(false) && state == SendClientFinished
      modifies this`transcript, this`log, this`written, this`state
      ensures StepOk(w)
      ensures AllOk(env) && old(Agreeable(env)) ==> w != Error
      ensures w == ChannelIdLookup <==> negotiated.channelId && env.ok(ChannelIdCallback) && !env.hasChannelIdKey
      ensures w == ChannelIdLookup ==> log == old(log) && transcript == old(transcript) && state == old(state)
      ensures w != ChannelIdLookup && w != Error ==> w == Flush && state == FinishFlight
    {
      if negotiated.channelId {
        if !env.ok(ChannelIdCallback) {
          return Error;
        }
        if !env.hasChannelIdKey {
          return ChannelIdLookup;
        }
      }
      w := WriteLastFlight(env);
    }

    method WriteLastFlight(env: Env) returns (w: HsWait)
      requires Good(false) && state == SendClientFinished
      modifies this`transcript, this`log, this`written, this`state
      ensures w == Error || (w == Flush && Good(false) && state == FinishFlight)
      ensures AllOk(env) && (forall t: seq<byte> :: mac(false, t).Some?) ==> w != Error
    {
      ghost var before := Milestones(log);
      var ok := SendLastFlight(env);
      if !ok {
        return Error;
      }
      AfterLastFlight(before);
      return Flush;
    }

    method AfterLastFlight(ghost before: Trail)
      requires LogOk() && !usesTls13 && session == sessionReused
      requires Reached(before, SendClientFinished, session, TermsOf())
      requires Milestones(log) == ClientPart(before, negotiated.nextProto, negotiated.channelId)
      requires TicketAhead(FinishFlight, session) ==> ticketExpected == negotiated.ticketExpected
      modifies this`state
      ensures Good(false) && state == FinishFlight
      ensures Rank(state, session) < Rank(SendClientFinished, session)
    {
      state := FinishFlight;
    }

    /** can_false_start */
    predicate CanFalseStart()
      reads this
    {
      && !isDtls && version == TLS1_2_VERSION && cipher.keyExchange.Ecdhe? && cipher.aead
      && (falseStartWithoutAlpn || negotiated.alpn || negotiated.nextProto)
    }

    /** False Start returns early, in the middle of the handshake; not on renegotiation. */
    predicate FalseStarts()
      reads this
    {
      falseStartMode && CanFalseStart() && !initialHandshakeComplete
    }

    method BeginFalseStart()
      requires Good(false)
      modifies this`inFalseStart, this`canEarlyWrite
      ensures Good(false) && inFalseStart && canEarlyWrite && FalseStarts() == old(FalseStarts())
    {
      inFalseStart, canEarlyWrite := true, true;
    }

    /** do_finish_flight */
    method DoFinishFlight(env: Env) returns (w: HsWait)
      requires Good(false) && state == FinishFlight
      modifies this`state, this`inFalseStart, this`canEarlyWrite
      ensures StepOk(w)
      ensures AllOk(env) && old(Agreeable(env)) ==> w != Error
      ensures w != Error ==> state == if session then FinishClientHandshake else ReadSessionTicket
      ensures w != Error ==> w == if !session && FalseStarts() then EarlyReturn else Ok
    {
      if !session && !env.ok(RecordHashes) {
        return Error;
      }
      w := if !session && FalseStarts() then EarlyReturn else Ok;
      if w == EarlyReturn {
        BeginFalseStart();
      }
      AfterFlight();
    }

    method AfterFlight()
      requires Good(false) && state == FinishFlight
      modifies this`state
      ensures Good(false) && state == if session then FinishClientHandshake else ReadSessionTicket
      ensures Rank(state, session) < Rank(FinishFlight, session)
      ensures FalseStarts() == old(FalseStarts())
    {
      if session {
        Enter(FinishClientHandshake);
      } else {
        Enter(ReadSessionTicket);
      }
    }

    /** A NewSessionTicket; an empty one takes the promise of a ticket back. */
    method TakeTicket(env: Env) returns (w: HsWait)
      requires LogOk()
      modifies this`transcript, this`incoming, this`log, this`ticketExpected
      ensures w == Ok || w == Error || w == ReadMessage
      ensures w == ReadMessage ==> LogOk() && log == old(log) && ticketExpected == old(ticketExpected)
      ensures w == Ok ==> LogOk() && Milestones(log) == Then(old(Milestones(log)), Took(SSL3_MT_NEW_SESSION_TICKET))
      ensures w == Ok ==> ticketExpected == !env.ticketEmpty
      ensures AllOk(env) && (old(incoming) != [] ==> old(incoming)[0].typ == SSL3_MT_NEW_SESSION_TICKET) ==> w != Error
      ensures w == ReadMessage <==> old(incoming) == []
      ensures w == Ok ==> old(Next(SSL3_MT_NEW_SESSION_TICKET)) && incoming == old(incoming)[1..]
    {
      w := Take(env, SSL3_MT_NEW_SESSION_TICKET, env.ok(ParseMessage) && (env.ticketEmpty || env.ok(StowTicket)));
      if w == Ok {
        ticketExpected := !env.ticketEmpty;
      }
    }

    /** do_read_session_ticket */
    method DoReadSessionTicket(env: Env) returns (w: HsWait)
      requires Good(false) && state == ReadSessionTicket
      modifies this`transcript, this`incoming, this`log, this`state, this`ticketExpected
      ensures StepOk(w)
      ensures AllOk(env) && old(Agreeable(env)) ==> w != Error
      ensures w == ReadMessage <==> old(ticketExpected && incoming == [])
      ensures w == ReadChangeCipherSpec ==>
        if old(ticketExpected) then old(Next(SSL3_MT_NEW_SESSION_TICKET)) && incoming == old(incoming)[1..]
        else incoming == old(incoming) && log == old(log)
    {
      if ticketExpected {
        w := ReadTicket(env);
      } else {
        Enter(ProcessChangeCipherSpec);
        w := ReadChangeCipherSpec;
      }
    }

    method ReadTicket(env: Env) returns (w: HsWait)
      requires Good(false) && state == ReadSessionTicket
      requires ticketExpected
      modifies this`transcript, this`incoming, this`log, this`state, this`ticketExpected
      ensures w == Error || w == ReadMessage || w == ReadChangeCipherSpec
      ensures w != Error ==>
        Good(false) && state == if w == ReadChangeCipherSpec then ProcessChangeCipherSpec else ReadSessionTicket
      ensures AllOk(env) && (old(incoming) != [] ==> old(incoming)[0].typ == SSL3_MT_NEW_SESSION_TICKET) ==> w != Error
      ensures w == ReadMessage <==> old(incoming) == []
      ensures w == ReadChangeCipherSpec ==> old(Next(SSL3_MT_NEW_SESSION_TICKET)) && incoming == old(incoming)[1..]
    {
      ghost var before := Milestones(log);
      w := TakeTicket(env);
      if w == Ok {
        AfterTicket(before);
        w := ReadChangeCipherSpec;
      }
    }

    method AfterTicket(ghost before: Trail)
      requires LogOk() && !usesTls13 && session == sessionReused && negotiated.ticketExpected
      requires Reached(before, ReadSessionTicket, session, TermsOf())
      requires Milestones(log) == Then(before, Took(SSL3_MT_NEW_SESSION_TICKET))
      modifies this`state
      ensures Good(false) && state == ProcessChangeCipherSpec
      ensures Rank(state, session) < Rank(ReadSessionTicket, session)
    {
      TicketStep(before, session, TermsOf());
      state := ProcessChangeCipherSpec;
    }

    /** do_process_change_cipher_spec, once the record has come. */
    method DoProcessChangeCipherSpec(env: Env) returns (w: HsWait)
      requires Good(true) && state == ProcessChangeCipherSpec
      modifies this`log, this`state
      ensures StepOk(w)
      ensures AllOk(env) && old(Agreeable(env)) ==> w != Error
    {
      var ok := ChangeCipherState(env, false);
      if !ok {
        return Error;
      }
      Enter(ReadServerFinished);
      return Ok;
    }

    /** The message awaited is a Finished, and holds the MAC of the transcript. */
    predicate AwaitedFinished()
      reads this
    {
      Next(SSL3_MT_FINISHED) && mac(true, transcript) == Some(incoming[0].body)
    }

    /** ssl_get_finished: the MAC is taken before the message is hashed. */
    method GetFinished(env: Env) returns (w: HsWait)
      requires LogOk()
      modifies this`transcript, this`incoming, this`log
      ensures w == Ok || w == Error || w == ReadMessage
      ensures w == ReadMessage ==> log == old(log) && LogOk()
      ensures w == Ok ==> LogOk() && Milestones(log) == Then(old(Milestones(log)), Took(SSL3_MT_FINISHED))
      ensures AllOk(env) && old(incoming == [] || AwaitedFinished()) ==> w != Error
    {
      var msg := GetMessage();
      if msg.None? {
        return ReadMessage;
      }
      if msg.value.typ != SSL3_MT_FINISHED {
        return Error;
      }
      var finished := mac(true, transcript);
      if finished.None? || !env.ok(HashMessage) {
        return Error;
      }
      transcript := transcript + msg.value.raw;
      if msg.value.body != finished.value || !env.ok(FinishedLength) {
        return Error;
      }
      NextMessage();
      return Ok;
    }

    /** do_read_server_finished */
    method DoReadServerFinished(env: Env) returns (w: HsWait)
      requires Good(false) && state == ReadServerFinished
      modifies this`transcript, this`incoming, this`log, this`state
      ensures StepOk(w)
      ensures AllOk(env) && old(Agreeable(env)) ==> w != Error
    {
      ghost var before := Milestones(log);
      w := GetFinished(env);
      if w == Ok {
        AfterServerFinished(before);
      }
    }

    method AfterServerFinished(ghost before: Trail)
      requires LogOk() && !usesTls13 && session == sessionReused &&
        Reached(before, ReadServerFinished, session, TermsOf())
      requires Milestones(log) == Then(before, Took(SSL3_MT_FINISHED))
      modifies this`state
      ensures Good(false) && state == if session then SendClientFinished else FinishClientHandshake
      ensures Rank(state, session) < Rank(ReadServerFinished, session)
    {
      ServerFinishedStep(before, session, TermsOf());
      if session {
        Enter(SendClientFinished);
      } else {
        Enter(FinishClientHandshake);
      }
    }

    /** do_finish_client_handshake */
    method DoFinishClientHandshake(env: Env) returns (w: HsWait)
      requires Good(false) && state == FinishClientHandshake
      modifies this`newSession, this`handshakeFinalized, this`initialHandshakeComplete, this`state
      ensures StepOk(w)
      ensures AllOk(env) && old(Agreeable(env)) ==> w != Error
      ensures w == Ok ==> state == Done && handshakeFinalized && initialHandshakeComplete
    {
      var ok := Establish(env);
      if !ok {
        return Error;
      }
      AfterAll();
      return Ok;
    }

    method AfterAll()
      requires Good(false) && state == FinishClientHandshake && handshakeFinalized && initialHandshakeComplete
      modifies this`state
      ensures Good(false) && state == Done
      ensures Rank(state, session) < Rank(FinishClientHandshake, session)
    {
      state := Done;
    }

    /** The session is established, and the handshake final. */
    method Establish(env: Env) returns (ok: bool)
      modifies this`newSession, this`handshakeFinalized, this`initialHandshakeComplete
      ensures ok ==> handshakeFinalized && initialHandshakeComplete && (session || !newSession)
      ensures !ok ==> !session && handshakeFinalized == old(handshakeFinalized)
      ensures !ok ==> initialHandshakeComplete == old(initialHandshakeComplete)
      ensures AllOk(env) ==> ok
    {
      if !session {
        if !env.ok(DuplicateSession) {
          return false;
        }
        newSession := false;
      }
      handshakeFinalized, initialHandshakeComplete := true, true;
      return true;
    }

    // ---- the drivers ----

    /** Whoever offers or resumes a session does so for good from the ServerHello on. */
    twostate predicate SessionKept()
      reads this
    {
      BeforeServerHello(old(state)) || session == old(session)
    }

    /** The switch of ssl_client_handshake, for reading states. */
    method ReadStep(env: Env) returns (w: HsWait)
      requires Good(state == ProcessChangeCipherSpec)
      requires Reads(state)
      modifies this`version, this`haveVersion, this`usesTls13, this`sessionReused, this`session, this`newSession,
        this`cipher, this`transcript, this`negotiated, this`ticketExpected, this`incoming, this`log, this`state,
        this`certRequest, this`certificate, this`signer, this`earlyDataOffered, this`written
      ensures StepOk(w) && SessionKept()
      ensures AllOk(env) && old(Agreeable(env)) ==> w != Error
    {
      match state
      case ReadHelloVerifyRequest => w := DoReadHelloVerifyRequest(env);
      case ReadServerHello => w := DoReadServerHello(env);
      case ReadServerCertificate => w := DoReadServerCertificate(env);
      case ReadCertificateStatus => w := DoReadCertificateStatus(env);
      case ReadServerKeyExchange => w := DoReadServerKeyExchange(env);
      case ReadCertificateRequest => w := DoReadCertificateRequest(env);
      case ReadServerHelloDone => w := DoReadServerHelloDone(env);
      case ReadSessionTicket => w := DoReadSessionTicket(env);
      case ReadServerFinished => w := DoReadServerFinished(env);
    }

    /** The switch of ssl_client_handshake. */
    method Step(env: Env) returns (w: HsWait)
      requires Good(state == ProcessChangeCipherSpec) && state != Done
      modifies this`version, this`haveVersion, this`usesTls13, this`sessionReused, this`session, this`newSession,
        this`cipher, this`transcript, this`negotiated, this`ticketExpected, this`incoming, this`log, this`state,
        this`certRequest, this`certificate, this`signer, this`earlyDataOffered, this`written, this`inEarlyData,
        this`canEarlyWrite, this`inFalseStart, this`handshakeFinalized, this`initialHandshakeComplete
      ensures StepOk(w) && SessionKept()
      ensures AllOk(env) && old(Agreeable(env)) ==> w != Error
    {
      if Reads(state) {
        w := ReadStep(env);
        return;
      }
      match state
      case StartConnect => w := DoStartConnect(env);
      case EnterEarlyData => w := DoEnterEarlyData(env);
      case Tls13 => w := DoTls13(env);
      case VerifyServerCertificate => w := DoVerifyServerCertificate(env);
      case SendClientCertificate => w := DoSendClientCertificate(env);
      case SendClientKeyExchange => w := DoSendClientKeyExchange(env);
      case SendClientCertificateVerify => w := DoSendClientCertificateVerify(env);
      case SendClientFinished => w := DoSendClientFinished(env);
      case FinishFlight => w := DoFinishFlight(env);
      case ProcessChangeCipherSpec => w := DoProcessChangeCipherSpec(env);
      case FinishClientHandshake => w := DoFinishClientHandshake(env);
    }

    /** Completed states came in the order of falling rank, so none twice. */
    ghost predicate InSequence(completed: seq<State>)
      reads this
    {
      Falling(completed, state, session)
    }

    /** A step, with the state it completes noted. */
    method Advance(env: Env, ghost before: seq<State>) returns (w: HsWait, ghost completed: seq<State>)
      requires Good(state == ProcessChangeCipherSpec) && InSequence(before) && state != Done
      modifies this`version, this`haveVersion, this`usesTls13, this`sessionReused, this`session, this`newSession,
        this`cipher, this`transcript, this`negotiated, this`ticketExpected, this`incoming, this`log, this`state,
        this`certRequest, this`certificate, this`signer, this`earlyDataOffered, this`written, this`inEarlyData,
        this`canEarlyWrite, this`inFalseStart, this`handshakeFinalized, this`initialHandshakeComplete
      ensures StepOk(w) && (w != Error ==> InSequence(completed))
      ensures completed == if w == Error || state == old(state) then before else before + [old(state)]
    {
      w := Step(env);
      completed := before;
      if w != Error && state != old(state) {
        RanksFall(before, old(state), old(session), state, session);
        completed := before + [old(state)];
      } else if BeforeServerHello(old(state)) {
        ChainBefore(before, Rank(old(state), old(session)), old(session), session);
      }
    }

    /** ssl_client_handshake */
    method DoHandshake(envs: nat -> Env, ghost before: seq<State>) returns (w: HsWait, ghost completed: seq<State>)
      requires Good(state == ProcessChangeCipherSpec) && InSequence(before)
      modifies this`version, this`haveVersion, this`usesTls13, this`sessionReused, this`session, this`newSession,
        this`cipher, this`transcript, this`negotiated, this`ticketExpected, this`incoming, this`log, this`state,
        this`certRequest, this`certificate, this`signer, this`earlyDataOffered, this`written, this`inEarlyData,
        this`canEarlyWrite, this`inFalseStart, this`handshakeFinalized, this`initialHandshakeComplete
      ensures w != Error ==>
        Good(false) && InSequence(completed) && (w == ReadChangeCipherSpec <==> state == ProcessChangeCipherSpec)
      ensures w == Ok ==> state == Done
      ensures w == EarlyReturn ==> LeftEarly()
    {
      var n := 0;
      completed := before;
      while state != Done
        invariant Good(state == ProcessChangeCipherSpec) && InSequence(completed) &&
          (n > 0 ==> state != ProcessChangeCipherSpec)
        decreases Rank(state, session)
      {
        w, completed := Advance(envs(n), completed);
        n := n + 1;
        if w != Ok {
          return;
        }
      }
      return Ok, completed;
    }

    /** Between calls of ssl_run_handshake: a failed handshake stays failed; otherwise all is in order, and
        the keys to read with are changed only once a ChangeCipherSpec has been waited for. */
    ghost predicate Suspended(completed: seq<State>)
      reads this
    {
      wait != Error ==>
        && Good(false) && InSequence(completed)
        && (wait == ReadChangeCipherSpec <==> state == ProcessChangeCipherSpec)
        && (wait == EarlyReturn ==> LeftEarly())
    }

    /** Resolving what ssl_run_handshake waits for, if the transport is needed for that: done, again (a record
        that brought nothing), or a result to return. */
    method Resolve(io: Io) returns (outcome: Resolution)
      requires wait != Error && Good(false) && (wait == ReadChangeCipherSpec <==> state == ProcessChangeCipherSpec)
      requires wait.Flush? || wait.ReadServerHelloMessage? || wait.ReadMessage? || wait.ReadChangeCipherSpec?
      modifies this`incoming, this`log
      ensures Good(outcome.Resolved? && state == ProcessChangeCipherSpec)
      ensures outcome
        == if io.ret <= 0 then Return(io.ret) else if io.discarded && wait != Flush then Again else Resolved
      ensures incoming == if wait == Flush then old(incoming) else old(incoming) + io.messages
    {
      outcome := if io.ret <= 0 then Return(io.ret) else if io.discarded && !wait.Flush? then Again else Resolved;
      if !wait.Flush? {
        Receive(io.messages);
      }
      if wait.ReadChangeCipherSpec? && outcome.Resolved? {
        ReceiveChangeCipherSpec();
      }
    }

    method Receive(messages: seq<SSLMessage>)
      requires Good(false)
      modifies this`incoming
      ensures Good(false) && incoming == old(incoming) + messages
    {
      incoming := incoming + messages;
    }

    method ReceiveChangeCipherSpec()
      requires Good(false) && state == ProcessChangeCipherSpec
      modifies this`log
      ensures Good(true)
    {
      Note(GotChangeCipherSpec);
    }

    /** The switch of ssl_run_handshake on what the handshake waits for. */
    method Settle(io: seq<Io>, i: nat) returns (outcome: Resolution, next: nat)
      requires i <= |io| &&
        (wait != Error ==> Good(false) && (wait == ReadChangeCipherSpec <==> state == ProcessChangeCipherSpec))
      requires wait == EarlyReturn ==> LeftEarly()
      modifies this`incoming, this`log, this`wait, this`canEarlyWrite
      ensures i <= next <= |io| && (outcome.Again? || (outcome.Resolved? && old(wait) != Ok) ==> next > i)
      ensures outcome.Resolved? ==> wait != Error && Good(state == ProcessChangeCipherSpec)
      ensures !outcome.Resolved? && wait != Error ==>
        Good(false) && (wait == ReadChangeCipherSpec <==> state == ProcessChangeCipherSpec)
      ensures old(wait) == Error ==> outcome == Return(-1) && log == old(log) && wait == Error
      ensures outcome.Return? && outcome.ret > 0 ==>
        outcome.ret == 1 && old(wait) == EarlyReturn && wait == Ok && LeftEarly()
      ensures wait == EarlyReturn ==> LeftEarly()
    {
      next := i;
      if wait.Ok? {
        return Resolved, next;
      }
      if wait.Flush? || wait.ReadServerHelloMessage? || wait.ReadMessage? || wait.ReadChangeCipherSpec? {
        if i == |io| {
          return Return(-1), next;
        }
        outcome := Resolve(io[i]);
        return outcome, i + 1;
      }
      if wait.Error? {
        return Return(-1), next;
      }
      outcome := SettleEarly();
    }

    /** The waits that need neither the transport nor anything else from outside this call. */
    method SettleEarly() returns (outcome: Resolution)
      requires wait != Error && wait != Ok && wait != ReadChangeCipherSpec && Good(false)
      requires state != ProcessChangeCipherSpec && (wait == EarlyReturn ==> LeftEarly())
      modifies this`wait, this`canEarlyWrite
      ensures Good(false) && wait == if old(wait) == EarlyDataRejected then old(wait) else Ok
      ensures outcome == Return(if old(wait) == EarlyReturn then 1 else -1)
      ensures old(wait) == EarlyReturn ==> LeftEarly()
    {
      if wait.EarlyDataRejected? {
        StopEarlyWrites();
        return Return(-1);
      }
      outcome := Return(if wait.EarlyReturn? then 1 else -1);
      WaitNoMore();
    }

    method StopEarlyWrites()
      requires Good(false) && wait == EarlyDataRejected && state != ProcessChangeCipherSpec
      modifies this`canEarlyWrite
      ensures Good(false) && !canEarlyWrite
    {
      canEarlyWrite := false;
    }

    method WaitNoMore()
      requires Good(false) && state != ProcessChangeCipherSpec
      modifies this`wait
      ensures Good(false) && wait == Ok
    {
      wait := Ok;
    }

    /** The state machine is run again, and what it waits for remembered. */
    method RunMachine(envs: nat -> Env, ghost before: seq<State>) returns (ghost completed: seq<State>)
      requires Good(state == ProcessChangeCipherSpec) && InSequence(before)
      modifies this`version, this`haveVersion, this`usesTls13, this`sessionReused, this`session, this`newSession,
        this`cipher, this`transcript, this`negotiated, this`ticketExpected, this`incoming, this`log, this`state,
        this`certRequest, this`certificate, this`signer, this`earlyDataOffered, this`written, this`inEarlyData,
        this`canEarlyWrite, this`inFalseStart, this`handshakeFinalized, this`initialHandshakeComplete, this`wait
      ensures Suspended(completed) && (wait == Ok ==> state == Done)
    {
      var w;
      w, completed := DoHandshake(envs, before);
      Await(w, completed);
    }

    method Await(w: HsWait, ghost completed: seq<State>)
      requires w != Error ==>
        Good(false) && InSequence(completed) && (w == ReadChangeCipherSpec <==> state == ProcessChangeCipherSpec)
      requires w == EarlyReturn ==> LeftEarly()
      modifies this`wait
      ensures wait == w && Suspended(completed)
    {
      wait := w;
    }

    /** ssl_run_handshake. The transport's answers are given in order; when they run out it would block. */
    method RunHandshake(io: seq<Io>, envs: nat -> nat -> Env, ghost before: seq<State>)
      returns (ret: int, earlyReturn: bool, ghost completed: seq<State>)
      requires Suspended(before)
      modifies this`version, this`haveVersion, this`usesTls13, this`sessionReused, this`session, this`newSession,
        this`cipher, this`transcript, this`negotiated, this`ticketExpected, this`incoming, this`log, this`state,
        this`certRequest, this`certificate, this`signer, this`earlyDataOffered, this`written, this`inEarlyData,
        this`canEarlyWrite, this`inFalseStart, this`handshakeFinalized, this`initialHandshakeComplete, this`wait
      ensures Suspended(completed)
      ensures old(wait) == Error ==> ret == -1 && wait == Error && log == old(log) && state == old(state)
      ensures ret == 1 && !earlyReturn ==> state == Done && wait == Ok
      ensures earlyReturn ==> ret == 1 && wait == Ok && LeftEarly()
    {
      var i, round := 0, 0;
      completed := before;
      while true
        invariant 0 <= i <= |io| && Suspended(completed)
        invariant old(wait) == Error ==> wait == Error && log == old(log) && state == old(state)
        decreases |io| - i, if wait == Ok then 1 else 0
      {
        var outcome, next := Settle(io, i);
        i := next;
        if outcome.Return? {
          return outcome.ret, outcome.ret == 1, completed;
        }
        if outcome.Again? {
          continue;
        }
        completed := RunMachine(envs(round), completed);
        round := round + 1;
        if wait == Error {
          return -1, false, completed;
        }
        if wait == Ok {
          return 1, false, completed;
        }
      }
    }

    /** What a finished TLS 1.2 handshake went through, message by message: one Finished each way, the
        server's first exactly when resuming, each after its side's ChangeCipherSpec and change of keys; a
        ticket exactly if the ServerHello agreed on one. In a full handshake, with certificates the
        certificate was found good; a ServerKeyExchange (which ECDHE must have, and RSA not) came with a good
        signature; a status came only if agreed on; and a CertificateVerify went out exactly if a certificate
        was requested and the client had one, an alert in place of one exactly for want of it in SSL 3.0.
        The transcript holds the messages since the last HelloVerifyRequest, and each Finished the MAC of
        those before it. */
    lemma {:induction false} FinishedHandshake(completed: seq<State>) returns (f: Flow)
      requires Suspended(completed) && wait == Ok && state == Done && !usesTls13
      ensures Sequence(Milestones(log)) == WholeFlow(sessionReused, f, negotiated.ticketExpected)
      ensures f.nextProto == negotiated.nextProto && f.channelId == negotiated.channelId
      ensures f.options.helloVerify ==> isDtls
      ensures !sessionReused ==> f.cipher == cipher && f.certRequest == certRequest
      ensures !sessionReused ==> (f.options.status ==> negotiated.certificateStatusExpected)
      ensures !sessionReused && cipher.keyExchange.Ecdhe? ==> f.options.serverKeyExchange
      ensures !sessionReused && cipher.keyExchange.Rsa? ==> !f.options.serverKeyExchange
      ensures !sessionReused ==> (f.options.certificateVerify <==> certRequest && signer)
      ensures !sessionReused ==> (f.options.alert <==> certRequest && !certificate && version == SSL3_VERSION)
      ensures forall m :: IsLast(m) ==> Count(log, m) == 1
      ensures transcript == Messages(log) && FinishedOk(mac, log) && handshakeFinalized && initialHandshakeComplete
    {
      f := WholeLog(log, sessionReused, TermsOf());
    }

    /** What has happened when a handshake is left early before TLS 1.3, and not for early data: it is at
        False Start, and everything but the server's last messages has gone by. */
    lemma {:induction false} FalseStartHandshake(completed: seq<State>) returns (f: Flow)
      requires Suspended(completed) && wait == Ok && LeftEarly() && !usesTls13 && !inEarlyData
      ensures state == ReadSessionTicket && !session && FalseStarts()
      ensures falseStartMode && !initialHandshakeComplete && !isDtls && version == 0x0303
      ensures cipher.keyExchange.Ecdhe? && cipher.aead &&
        (falseStartWithoutAlpn || negotiated.alpn || negotiated.nextProto)
      ensures f.cipher == cipher && f.options.serverKeyExchange && f.certRequest == certRequest
      ensures f.options.certificateVerify <==> certRequest && signer
      ensures Sequence(Milestones(log)) == FullFlight(f)
    {
      assert Reached(Milestones(log), FinishFlight, false, TermsOf());
      f := FullFlightOf(Milestones(log), TermsOf());
    }
  }

  /** States completed in falling rank, all above the state reached. */
  ghost predicate Falling(completed: seq<State>, state: State, resuming: bool) {
    Chain(completed, Rank(state, resuming), resuming) && (BeforeServerHello(state) ==> AllBefore(completed))
  }

  ghost predicate Chain(completed: seq<State>, r: nat, resuming: bool)
    decreases |completed|
  {
    completed == [] ||
    var last := Rank(completed[|completed| - 1], resuming);
    last > r && Chain(completed[..|completed| - 1], last, resuming)
  }

  ghost predicate AllBefore(completed: seq<State>) {
    completed == [] || (BeforeServerHello(completed[|completed| - 1]) && AllBefore(completed[..|completed| - 1]))
  }

  lemma {:induction false} ChainBefore(completed: seq<State>, r: nat, a: bool, b: bool)
    requires AllBefore(completed) && Chain(completed, r, a)
    ensures Chain(completed, r, b)
    decreases |completed|
  {
    if completed != [] {
      ChainBefore(completed[..|completed| - 1], Rank(completed[|completed| - 1], a), a, b);
    }
  }

  /** The session may change up to the ServerHello; ranks do not depend on it before. */
  lemma {:induction false} RanksFall(completed: seq<State>, before: State, offering: bool, after: State, resuming: bool)
    requires Falling(completed, before, offering) && (BeforeServerHello(before) || resuming == offering)
    requires Rank(after, resuming) < Rank(before, offering)
    ensures Falling(completed + [before], after, resuming)
  {
    assert (completed + [before])[..|completed|] == completed;
    if BeforeServerHello(before) {
      ChainBefore(completed, Rank(before, offering), offering, resuming);
    }
  }

  lemma {:induction false} ChainAbove(completed: seq<State>, r: nat, resuming: bool, c: State)
    requires Chain(completed, r, resuming) && c in completed
    ensures Rank(c, resuming) > r
    decreases |completed|
  {
    var front, last := completed[..|completed| - 1], completed[|completed| - 1];
    assert completed == front + [last];
    if c != last {
      ChainAbove(front, Rank(last, resuming), resuming, c);
    }
  }

  /** No state is completed twice, nor entered again. */
  lemma {:induction false} NoStateTwice(completed: seq<State>, state: State, resuming: bool)
    requires Chain(completed, Rank(state, resuming), resuming)
    ensures state !in completed
    ensures forall i, j :: 0 <= i < j < |completed| ==> completed[i] != completed[j]
  {
    if state in completed {
      ChainAbove(completed, Rank(state, resuming), resuming, state);
    }
    if completed != [] {
      NoStateTwice(completed[..|completed| - 1], completed[|completed| - 1], resuming);
    }
  }
}