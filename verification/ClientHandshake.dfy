/**
The TLS client handshake up to TLS 1.2, full and resumed (section 7.3 of RFC 5246 and section 3.3
of RFC 5077), with asynchronous callbacks.

One method per `do_*` function of `handshake_client.cc`. Answers of callbacks, parsers and checks that are
not modelled are parameters, and each contract says what comes of which answer. Whatever the answers and
whatever the peer sends, every step keeps `Valid`, a step that has to wait changes nothing, every step that
returns `HsOk` lowers `Rank`, and a handshake that is done has exchanged exactly the messages and cipher
changes of `FullFlow` or `ResumedFlow`.
*/
module ClientHandshake {
  import opened Bytes
  import opened HandshakeFlow
  import opened HandshakePeer

  datatype State =
    | StartConnect | EnterEarlyData | ReadHelloVerifyRequest | ReadServerHello
    | ReadServerCertificate | ReadCertificateStatus | VerifyServerCertificate | ReadServerKeyExchange
    | ReadCertificateRequest | ReadServerHelloDone
    | SendClientCertificate | SendClientKeyExchange | SendClientCertificateVerify | SendClientFinished
    | FinishFlight | ReadSessionTicket | ProcessChangeCipherSpec | ReadServerFinished
    | FinishClientHandshake | Done

  /** Distance from the end: resumed handshakes read the server's Finished before sending their own. */
  function RankOf(state: State, resumed: bool): nat
  {
    match state
    case StartConnect => 19
    case EnterEarlyData => 18
    case ReadHelloVerifyRequest => 17
    case ReadServerHello => 16
    case ReadServerCertificate => 15
    case ReadCertificateStatus => 14
    case VerifyServerCertificate => 13
    case ReadServerKeyExchange => 12
    case ReadCertificateRequest => 11
    case ReadServerHelloDone => 10
    case SendClientCertificate => 9
    case SendClientKeyExchange => 8
    case SendClientCertificateVerify => 7
    case SendClientFinished => if resumed then 3 else 6
    case FinishFlight => if resumed then 2 else 5
    case ReadSessionTicket => if resumed then 6 else 4
    case ProcessChangeCipherSpec => if resumed then 5 else 3
    case ReadServerFinished => if resumed then 4 else 2
    case FinishClientHandshake => 1
    case Done => 0
  }

  // the rank of the state behind a HelloVerifyRequest
  const RESTARTED: nat := 16

  predicate BeforeServerHello(s: State)
  {
    s.StartConnect? || s.EnterEarlyData? || s.ReadHelloVerifyRequest? || s.ReadServerHello?
  }

  predicate SendsIn(s: State, resumed: bool)
  {
    match s
    case StartConnect => true
    case SendClientCertificate => true
    case SendClientKeyExchange => true
    case SendClientCertificateVerify => true
    case SendClientFinished => true
    case FinishClientHandshake => !resumed
    case Done => !resumed
    case _ => false
  }

  predicate WriteCipherIn(s: State, resumed: bool)
  {
    match s
    case ReadSessionTicket => !resumed
    case ProcessChangeCipherSpec => !resumed
    case ReadServerFinished => !resumed
    case FinishFlight => true
    case FinishClientHandshake => true
    case Done => true
    case _ => false
  }

  predicate ReadCipherIn(s: State, resumed: bool)
  {
    match s
    case SendClientFinished => resumed
    case FinishFlight => resumed
    case ReadServerFinished => true
    case FinishClientHandshake => true
    case Done => true
    case _ => false
  }

  // ---- flows ----

  /** What has been said when a state is entered. */
  function FlowIn(s: State, resumed: bool, o: Options): Flow
  {
    match s
    case StartConnect => Start
    case EnterEarlyData => AfterClientHello()
    case ReadHelloVerifyRequest => AfterClientHello()
    case ReadServerHello => AfterClientHello()
    case ReadServerCertificate => AfterServerHello()
    case ReadCertificateStatus => AfterCertificate(o)
    case VerifyServerCertificate => AfterStatus(o)
    case ReadServerKeyExchange => AfterStatus(o)
    case ReadCertificateRequest => AfterServerKey(o)
    case ReadServerHelloDone => AfterRequest(o)
    case SendClientCertificate => AfterHelloDone(o)
    case SendClientKeyExchange => AfterClientCertificate(o)
    case SendClientCertificateVerify => AfterClientKey(o)
    case SendClientFinished => if resumed then ServerFinish(AfterServerHello(), o) else AfterVerify(o)
    case FinishFlight => if resumed then ResumedFlow(o) else ClientFinish(AfterVerify(o), o)
    case ReadSessionTicket => BeforeTicket(resumed, o)
    case ProcessChangeCipherSpec => AfterTicket(BeforeTicket(resumed, o), o)
    case ReadServerFinished => Changed(AfterTicket(BeforeTicket(resumed, o), o), true)
    case FinishClientHandshake => if resumed then ResumedFlow(o) else FullFlow(o)
    case Done => if resumed then ResumedFlow(o) else FullFlow(o)
  }

  function BeforeTicket(resumed: bool, o: Options): Flow
  {
    if resumed then AfterServerHello() else ClientFinish(AfterVerify(o), o)
  }

  /** What is said on leaving a state. */
  function Leaves(f: Flow, s: State, o: Options): Flow
  {
    match s
    case StartConnect => Said(f, false, CLIENT_HELLO)
    case ReadServerHello => Said(f, true, SERVER_HELLO)
    case ReadServerCertificate => Optional(f, o.certificate, true, CERTIFICATE)
    case ReadCertificateStatus => Optional(f, o.status, true, CERTIFICATE_STATUS)
    case ReadServerKeyExchange => Optional(f, o.keyExchange, true, SERVER_KEY_EXCHANGE)
    case ReadCertificateRequest => Optional(f, o.certRequest, true, CERTIFICATE_REQUEST)
    case ReadServerHelloDone => Said(f, true, SERVER_HELLO_DONE)
    case SendClientCertificate => Optional(f, o.certRequest, false, CERTIFICATE)
    case SendClientKeyExchange => Said(f, false, CLIENT_KEY_EXCHANGE)
    case SendClientCertificateVerify => Optional(f, o.certRequest && o.clientCert, false, CERTIFICATE_VERIFY)
    case SendClientFinished => ClientFinish(f, o)
    case ReadSessionTicket => AfterTicket(f, o)
    case ProcessChangeCipherSpec => Changed(f, true)
    case ReadServerFinished => Said(f, true, FINISHED)
    case _ => f
  }

  /** The state machine's edges. */
  predicate Edge(s: State, next: State, resumed: bool)
  {
    match s
    case StartConnect => next == EnterEarlyData
    case EnterEarlyData => next == ReadHelloVerifyRequest || next == ReadServerHello
    case ReadHelloVerifyRequest => next == ReadServerHello
    case ReadServerHello => next == if resumed then ReadSessionTicket else ReadServerCertificate
    case ReadServerCertificate => next == ReadCertificateStatus
    case ReadCertificateStatus => next == VerifyServerCertificate
    case VerifyServerCertificate => next == ReadServerKeyExchange
    case ReadServerKeyExchange => next == ReadCertificateRequest
    case ReadCertificateRequest => next == ReadServerHelloDone
    case ReadServerHelloDone => next == SendClientCertificate
    case SendClientCertificate => next == SendClientKeyExchange
    case SendClientKeyExchange => next == SendClientCertificateVerify
    case SendClientCertificateVerify => next == SendClientFinished
    case SendClientFinished => next == FinishFlight
    case FinishFlight => next == if resumed then FinishClientHandshake else ReadSessionTicket
    case ReadSessionTicket => next == ProcessChangeCipherSpec
    case ProcessChangeCipherSpec => next == ReadServerFinished
    case ReadServerFinished => next == if resumed then SendClientFinished else FinishClientHandshake
    case FinishClientHandshake => next == Done
    case Done => false
  }

  /** Leaving a state settles at most the option that belongs to it. */
  predicate Settled(s: State, a: Options, b: Options)
  {
    || BeforeServerHello(s)
    || (&& a.certificate == b.certificate && a.nextProto == b.nextProto && a.channelId == b.channelId
        && (a.status == b.status || s.ReadCertificateStatus?)
        && (a.keyExchange == b.keyExchange || s.ReadServerKeyExchange?)
        && (a.certRequest == b.certRequest || s.ReadCertificateRequest?)
        && (a.clientCert == b.clientCert || s.SendClientCertificate?)
        && (a.ticket == b.ticket || s.ReadSessionTicket?))
  }

  /** State by state, the client goes through the flows of the two RFCs. */
  lemma FlowMoves(s: State, next: State, was: bool, resumed: bool, a: Options, b: Options)
    requires Edge(s, next, resumed) && Settled(s, a, b) && (BeforeServerHello(s) || was == resumed)
    requires 7 <= RankOf(s, was) < 16 ==> !was
    ensures FlowIn(next, resumed, b) == Leaves(FlowIn(s, was, a), s, b)
    ensures RankOf(next, resumed) < RankOf(s, was)
  {
    var rank := RankOf(s, was);
    if rank >= 16 {
      HelloMoves(s, next, was, resumed, a, b);
    } else if rank >= 10 {
      ServerMoves(s, next, a, b);
    } else if rank >= 7 {
      ClientMoves(s, next, a, b);
    } else if resumed {
      ResumedMoves(s, next, a, b);
    } else {
      LateMoves(s, next, a, b);
    }
  }

  lemma HelloMoves(s: State, next: State, was: bool, resumed: bool, a: Options, b: Options)
    requires Edge(s, next, resumed) && 16 <= RankOf(s, was)
    ensures FlowIn(next, resumed, b) == Leaves(FlowIn(s, was, a), s, b) && RankOf(next, resumed) < RankOf(s, was)
  {
    hide FlowIn, Leaves;
    HelloFlow(was, resumed, a, b);
  }

  lemma HelloFlow(was: bool, resumed: bool, a: Options, b: Options)
    ensures FlowIn(EnterEarlyData, resumed, b) == Leaves(FlowIn(StartConnect, was, a), StartConnect, b)
    ensures FlowIn(ReadHelloVerifyRequest, resumed, b) == Leaves(FlowIn(EnterEarlyData, was, a), EnterEarlyData, b)
    ensures FlowIn(ReadServerHello, resumed, b) == Leaves(FlowIn(EnterEarlyData, was, a), EnterEarlyData, b)
    ensures FlowIn(ReadServerHello, resumed, b) ==
            Leaves(FlowIn(ReadHelloVerifyRequest, was, a), ReadHelloVerifyRequest, b)
    ensures FlowIn(if resumed then ReadSessionTicket else ReadServerCertificate, resumed, b) ==
            Leaves(FlowIn(ReadServerHello, was, a), ReadServerHello, b)
  {
    hide AfterCertificate, AfterStatus, AfterServerKey, AfterRequest, AfterHelloDone, AfterClientCertificate,
         AfterClientKey, AfterVerify, ClientFinish, ServerFinish, Extras, AfterTicket, FullFlow, ResumedFlow,
         Optional;
  }

  lemma ServerMoves(s: State, next: State, a: Options, b: Options)
    requires Edge(s, next, false) && Settled(s, a, b) && 10 <= RankOf(s, false) < 16
    ensures FlowIn(next, false, b) == Leaves(FlowIn(s, false, a), s, b) && RankOf(next, false) < RankOf(s, false)
  {
    hide FlowIn, Leaves;
    if RankOf(s, false) >= 14 {
      StatusFlow(a, b);
    } else {
      KeyFlow(a, b);
      if s == ReadServerHelloDone { assert a == b; }
    }
  }

  lemma StatusFlow(a: Options, b: Options)
    requires a.certificate == b.certificate
    ensures FlowIn(ReadCertificateStatus, false, b) ==
            Leaves(FlowIn(ReadServerCertificate, false, a), ReadServerCertificate, b)
    ensures FlowIn(VerifyServerCertificate, false, b) ==
            Leaves(FlowIn(ReadCertificateStatus, false, a), ReadCertificateStatus, b)
  {
    hide AfterClientHello, AfterServerHello, AfterServerKey, AfterRequest, AfterHelloDone, AfterClientCertificate,
         AfterClientKey, AfterVerify, ClientFinish, ServerFinish, Extras, AfterTicket, FullFlow, ResumedFlow,
         BeforeTicket, Optional;
  }

  lemma KeyFlow(a: Options, b: Options)
    requires a.certificate == b.certificate && a.status == b.status
    ensures FlowIn(ReadServerKeyExchange, false, b) ==
            Leaves(FlowIn(VerifyServerCertificate, false, a), VerifyServerCertificate, b)
    ensures FlowIn(ReadCertificateRequest, false, b) ==
            Leaves(FlowIn(ReadServerKeyExchange, false, a), ReadServerKeyExchange, b)
    ensures a.keyExchange == b.keyExchange ==>
              FlowIn(ReadServerHelloDone, false, b) ==
              Leaves(FlowIn(ReadCertificateRequest, false, a), ReadCertificateRequest, b)
    ensures FlowIn(SendClientCertificate, false, b) ==
            Leaves(FlowIn(ReadServerHelloDone, false, b), ReadServerHelloDone, b)
  {
    hide AfterClientHello, AfterServerHello, AfterClientCertificate, AfterClientKey, AfterVerify, ClientFinish,
         ServerFinish, Extras, AfterTicket, FullFlow, ResumedFlow, BeforeTicket, Optional;
    assert AfterStatus(a) == AfterStatus(b);
  }

  lemma ClientMoves(s: State, next: State, a: Options, b: Options)
    requires Edge(s, next, false) && Settled(s, a, b) && 7 <= RankOf(s, false) < 10
    ensures FlowIn(next, false, b) == Leaves(FlowIn(s, false, a), s, b) && RankOf(next, false) < RankOf(s, false)
  {
    hide FlowIn, Leaves;
    if s == SendClientCertificate {
      CertificateFlow(a, b);
    } else {
      assert a == b;
      ClientKeyFlow(a);
    }
  }

  lemma CertificateFlow(a: Options, b: Options)
    requires a.(clientCert := b.clientCert) == b
    ensures FlowIn(SendClientKeyExchange, false, b) ==
            Leaves(FlowIn(SendClientCertificate, false, a), SendClientCertificate, b)
  {
    hide AfterClientHello, AfterServerHello, AfterCertificate, AfterStatus, AfterServerKey, AfterRequest,
         AfterHelloDone, AfterClientKey, AfterVerify, ClientFinish, ServerFinish, Extras, AfterTicket, FullFlow,
         ResumedFlow, BeforeTicket, Optional;
    SameHelloDone(a, b);
  }

  lemma ClientKeyFlow(o: Options)
    ensures FlowIn(SendClientCertificateVerify, false, o) ==
            Leaves(FlowIn(SendClientKeyExchange, false, o), SendClientKeyExchange, o)
    ensures FlowIn(SendClientFinished, false, o) ==
            Leaves(FlowIn(SendClientCertificateVerify, false, o), SendClientCertificateVerify, o)
  {
    hide AfterClientHello, AfterServerHello, AfterCertificate, AfterStatus, AfterServerKey, AfterRequest,
         AfterHelloDone, AfterClientCertificate, ClientFinish, ServerFinish, Extras, AfterTicket, FullFlow,
         ResumedFlow, BeforeTicket, Optional;
  }

  lemma LateMoves(s: State, next: State, a: Options, b: Options)
    requires Edge(s, next, false) && Settled(s, a, b) && RankOf(s, false) < 7
    ensures FlowIn(next, false, b) == Leaves(FlowIn(s, false, a), s, b) && RankOf(next, false) < RankOf(s, false)
  {
    if s == ReadSessionTicket {
      TicketMoves(next, a, b);
    } else {
      assert a == b;
      FinishMoves(s, next, a);
    }
  }

  lemma TicketMoves(next: State, a: Options, b: Options)
    requires Edge(ReadSessionTicket, next, false) && a.(ticket := b.ticket) == b
    ensures FlowIn(next, false, b) == Leaves(FlowIn(ReadSessionTicket, false, a), ReadSessionTicket, b)
    ensures RankOf(next, false) < RankOf(ReadSessionTicket, false)
  {
    hide FlowIn, Leaves, BeforeTicket;
    TicketFlow(a, b);
  }

  lemma TicketFlow(a: Options, b: Options)
    requires a.(ticket := b.ticket) == b
    ensures FlowIn(ProcessChangeCipherSpec, false, b) ==
            Leaves(FlowIn(ReadSessionTicket, false, a), ReadSessionTicket, b)
  {
    hide AfterClientHello, AfterServerHello, AfterCertificate, AfterStatus, AfterServerKey, AfterRequest,
         AfterHelloDone, AfterClientCertificate, AfterClientKey, AfterVerify, ClientFinish, ServerFinish, Extras,
         AfterTicket, FullFlow, ResumedFlow, Optional;
    SameExchange(a, b);
  }

  lemma FinishMoves(s: State, next: State, o: Options)
    requires Edge(s, next, false) && RankOf(s, false) < 7 && s != ReadSessionTicket
    ensures FlowIn(next, false, o) == Leaves(FlowIn(s, false, o), s, o) && RankOf(next, false) < RankOf(s, false)
  {
    hide FlowIn, Leaves;
    FinishFlow(o);
    FinishedFlow(o);
    LastFlow(false, o);
  }

  lemma FinishFlow(o: Options)
    ensures FlowIn(FinishFlight, false, o) == Leaves(FlowIn(SendClientFinished, false, o), SendClientFinished, o)
    ensures FlowIn(ReadSessionTicket, false, o) == Leaves(FlowIn(FinishFlight, false, o), FinishFlight, o)
    ensures FlowIn(ReadServerFinished, false, o) ==
            Leaves(FlowIn(ProcessChangeCipherSpec, false, o), ProcessChangeCipherSpec, o)
  {
    hide AfterClientHello, AfterServerHello, AfterCertificate, AfterStatus, AfterServerKey, AfterRequest,
         AfterHelloDone, AfterClientCertificate, AfterClientKey, AfterVerify, ClientFinish, Extras, AfterTicket,
         ServerFinish, FullFlow, ResumedFlow, Optional;
  }

  lemma FinishedFlow(o: Options)
    ensures FlowIn(FinishClientHandshake, false, o) ==
            Leaves(FlowIn(ReadServerFinished, false, o), ReadServerFinished, o)
  {
    hide AfterClientHello, AfterServerHello, AfterCertificate, AfterStatus, AfterServerKey, AfterRequest,
         AfterHelloDone, AfterClientCertificate, AfterClientKey, AfterVerify, ClientFinish, Extras, AfterTicket,
         ResumedFlow, Optional;
  }

  lemma LastFlow(resumed: bool, o: Options)
    ensures FlowIn(Done, resumed, o) == Leaves(FlowIn(FinishClientHandshake, resumed, o), FinishClientHandshake, o)
  {
    hide AfterClientHello, AfterServerHello, AfterCertificate, AfterStatus, AfterServerKey, AfterRequest,
         AfterHelloDone, AfterClientCertificate, AfterClientKey, AfterVerify, ClientFinish, Extras, AfterTicket,
         ServerFinish, FullFlow, ResumedFlow, BeforeTicket, Optional;
  }

  /** The ticket plays no part before the server's finish. */
  lemma SameExchange(a: Options, b: Options)
    requires a.(ticket := b.ticket) == b
    ensures AfterVerify(a) == AfterVerify(b) && ClientFinish(AfterVerify(a), a) == ClientFinish(AfterVerify(b), b)
  {
    assert AfterHelloDone(a) == AfterHelloDone(b);
  }

  lemma ResumedMoves(s: State, next: State, a: Options, b: Options)
    requires Edge(s, next, true) && Settled(s, a, b) && RankOf(s, true) < 7
    ensures FlowIn(next, true, b) == Leaves(FlowIn(s, true, a), s, b) && RankOf(next, true) < RankOf(s, true)
  {
    hide FlowIn, Leaves;
    if s != ReadSessionTicket { assert a == b; }
    ResumedSteps(a, b);
    LastFlow(true, b);
  }

  lemma ResumedSteps(a: Options, b: Options)
    ensures FlowIn(ProcessChangeCipherSpec, true, b) ==
            Leaves(FlowIn(ReadSessionTicket, true, a), ReadSessionTicket, b)
    ensures FlowIn(ReadServerFinished, true, b) ==
            Leaves(FlowIn(ProcessChangeCipherSpec, true, b), ProcessChangeCipherSpec, b)
    ensures FlowIn(SendClientFinished, true, b) == Leaves(FlowIn(ReadServerFinished, true, b), ReadServerFinished, b)
    ensures FlowIn(FinishFlight, true, b) == Leaves(FlowIn(SendClientFinished, true, b), SendClientFinished, b)
    ensures FlowIn(FinishClientHandshake, true, b) == Leaves(FlowIn(FinishFlight, true, b), FinishFlight, b)
  {
    hide AfterClientHello, AfterServerHello, AfterCertificate, AfterStatus, AfterServerKey, AfterRequest,
         AfterHelloDone, AfterClientCertificate, AfterClientKey, AfterVerify, ClientFinish, Extras, AfterTicket,
         FullFlow, Optional;
  }

  /** What a ServerHello says: version and cipher in order, resumption, the cipher, extensions in order, and which. */
  datatype Hello = Hello(
    ok: bool, resumed: bool, certificate: bool, keyExchange: bool,
    extensionsOk: bool, status: bool, ticket: bool, nextProto: bool, channelId: bool)

  class Client {
    const peer: Peer
    const isDtls: bool
    // `SSL_HANDSHAKE`, and the session that is offered and later resumed
    var state: State
    var session: bool
    var usesCertificate: bool
    var requiresKeyExchange: bool
    var statusExpected: bool
    var certRequest: bool
    var hasCertificate: bool
    var ticketExpected: bool
    var nextProto: bool
    var channelId: bool
    // messages that came, and whether the server's certificate has been verified
    ghost var status: bool
    ghost var keyExchange: bool
    ghost var ticket: bool
    ghost var verified: bool

    ghost function Rank(): nat
      reads `state, `session
    {
      RankOf(state, session)
    }

    ghost function Opts(): Options
      reads `usesCertificate, `status, `keyExchange, `certRequest, `hasCertificate, `nextProto, `channelId, `ticket
    {
      Options(usesCertificate, status, keyExchange, certRequest, hasCertificate, nextProto, channelId, ticket)
    }

    /** The raw buffer is kept as long as a CertificateVerify may still have to be signed. */
    ghost predicate KeepsBuffer()
      reads this
    {
      var rank := Rank();
      if rank >= 16 then true
      else if rank >= 11 then usesCertificate
      else if rank >= 9 then certRequest
      else rank >= 7 && certRequest && hasCertificate
    }

    /** What the peer has to be ready for. */
    ghost predicate Staged()
      reads this, peer, peer.transcript
    {
      var p := peer.Progress();
      && (p.buffer <==> KeepsBuffer()) && (p.hash <==> Rank() < 16) && !p.pending
      && (p.maySend <==> SendsIn(state, session))
      && (p.writeCipher <==> WriteCipherIn(state, session)) && (p.readCipher <==> ReadCipherIn(state, session))
    }

    /** What the parameters and the messages that came have to do with each other. */
    ghost predicate Negotiated()
      reads this
    {
      var rank := Rank();
      && (rank >= 11 ==> !certRequest)
      && (7 <= rank < 16 ==> !session)
      && (rank < 16 && certRequest ==> usesCertificate)
      && (rank < 13 && !session && usesCertificate ==> verified)
      && (rank < 12 && !session && requiresKeyExchange ==> keyExchange)
      && (rank < 14 && !session && status ==> statusExpected)
      && (state == ReadHelloVerifyRequest ==> isDtls)
    }

    ghost predicate Valid()
      reads this, peer, peer.transcript
    {
      peer.Valid() && !peer.isServer && Staged() && Negotiated()
    }

    /** What has been said is what the state requires. */
    ghost predicate OnCourse()
      reads this, peer`flow
    {
      peer.flow == FlowIn(state, session, Opts())
    }

    /** Nothing has been said or changed: the next call of the same state starts afresh. */
    twostate predicate Still()
      reads this, peer`flow, peer`log, peer`inbox
    {
      unchanged(this) && peer.flow == old(peer.flow) && peer.log == old(peer.log) && peer.inbox == old(peer.inbox)
    }

    constructor (mac: (Octets, bool) -> Octets, frame: (Byte, Octets) -> Octets, isDtls: bool, session: bool)
      ensures Ready(HsOk) && state == StartConnect && this.isDtls == isDtls && this.session == session
      ensures fresh(peer) && fresh(peer.transcript) && peer.inbox == [] && !peer.ccsSeen && peer.mac == mac
    {
      peer := new Peer(false, mac, frame);
      this.isDtls, state, this.session := isDtls, StartConnect, session;
      usesCertificate, requiresKeyExchange, statusExpected, certRequest := false, false, false, false;
      hasCertificate, ticketExpected, nextProto, channelId := false, false, false, false;
      status, keyExchange, ticket, verified := false, false, false, false;
    }

    // ---- up to the ServerHello ----

    /** An expired or unusable session is dropped. */
    method DoStartConnect(ok: bool, usable: bool, body: Octets) returns (r: Wait)
      requires Valid() && state == StartConnect
      modifies this`state, this`session, peer`outbox, peer`log, peer`flow, peer.transcript
      ensures r == if ok then HsFlush else HsError
      ensures ok ==>
        && Valid() && state == EnterEarlyData && session == (old(session) && usable)
        && peer.flow == Said(old(peer.flow), false, CLIENT_HELLO)
    {
      if !ok { return HsError; }
      peer.Send(CLIENT_HELLO, body);
      session := session && usable;
      state := EnterEarlyData;
      return HsFlush;
    }

    method DoEnterEarlyData() returns (r: Wait)
      requires Valid() && state == EnterEarlyData
      modifies this`state
      ensures Valid() && r == HsOk && state == if isDtls then ReadHelloVerifyRequest else ReadServerHello
    {
      state := if isDtls then ReadHelloVerifyRequest else ReadServerHello;
      return HsOk;
    }

    /** A HelloVerifyRequest is not hashed, and the transcript starts again after it. */
    method DoReadHelloVerifyRequest(ok: bool, body: Octets) returns (r: Wait)
      requires Valid() && state == ReadHelloVerifyRequest
      modifies this`state, peer`inbox, peer`outbox, peer`log, peer`flow, peer`pending, peer`received,
               peer`start, peer.transcript
      ensures r == if old(peer.inbox) == [] then HsReadMessage
                   else if old(peer.inbox)[0].kind != HELLO_VERIFY_REQUEST then HsOk
                   else if ok then HsFlush else HsError
      ensures r != HsError ==> Valid()
      ensures r == HsReadMessage ==> Still()
      ensures r == HsOk ==> state == ReadServerHello && peer.flow == old(peer.flow) && peer.log == old(peer.log)
      ensures r != HsFlush ==> peer.received == old(peer.received)
      ensures r == HsFlush ==>
        && state == ReadServerHello && peer.flow == AfterClientHello() && peer.log.Told?
        && peer.log.prev == Begun && |old(peer.inbox)| > 0 && peer.received == old(peer.inbox)[1..]
    {
      hide Peer.Valid, RawOf, FlowIn;
      if peer.inbox == [] {
        return HsReadMessage;
      }
      if peer.inbox[0].kind != HELLO_VERIFY_REQUEST {
        state := ReadServerHello;
        return HsOk;
      }
      if !ok { return HsError; }
      peer.Restart();
      peer.Send(CLIENT_HELLO, body);
      state := ReadServerHello;
      return HsFlush;
    }

    /** The server decides whether the offered session is resumed, and the digest is known from here on. */
    method DoReadServerHello(hello: Hello) returns (r: Wait)
      requires Valid() && state == ReadServerHello
      modifies this`state, this`session, this`usesCertificate, this`requiresKeyExchange, this`statusExpected,
               this`ticketExpected, this`nextProto, this`channelId, peer`inbox, peer`log, peer`flow,
               peer`pending, peer.transcript
      ensures r == if old(peer.inbox) == [] then HsReadServerHello
                   else if old(peer.inbox)[0].kind == SERVER_HELLO && hello.ok && hello.extensionsOk then HsOk
                   else HsError
      ensures r != HsError ==> Valid()
      ensures r == HsReadServerHello ==> Still()
      ensures r == HsOk ==> session == (old(session) && hello.resumed) && Agreed(hello)
      ensures r == HsOk ==> peer.flow == Said(old(peer.flow), true, SERVER_HELLO)
      ensures r == HsOk ==> state == if session then ReadSessionTicket else ReadServerCertificate
    {
      hide Peer.Valid, Peer.Progress, RawOf, FlowOf, FlowIn;
      if peer.inbox == [] {
        return HsReadServerHello;
      }
      if peer.inbox[0].kind != SERVER_HELLO || !hello.ok {
        return HsError;
      }
      r := AcceptServerHello(hello);
    }

    /** A ServerHello with the right version and cipher. */
    method AcceptServerHello(hello: Hello) returns (r: Wait)
      requires Valid() && state == ReadServerHello && peer.inbox != [] && peer.inbox[0].kind == SERVER_HELLO
      modifies this`state, this`session, this`usesCertificate, this`requiresKeyExchange, this`statusExpected,
               this`ticketExpected, this`nextProto, this`channelId, peer`inbox, peer`log, peer`flow,
               peer`pending, peer.transcript
      ensures r == if hello.extensionsOk then HsOk else HsError
      ensures r == HsOk ==>
        && Valid() && session == (old(session) && hello.resumed) && Agreed(hello)
        && peer.flow == Said(old(peer.flow), true, SERVER_HELLO)
        && state == if session then ReadSessionTicket else ReadServerCertificate
    {
      hide Peer.Valid, Peer.Progress, RawOf, FlowOf, RankOf, Client.KeepsBuffer, Client.Negotiated, Client.Staged,
           Client.Agreed, Turn, EndsFlight;
      AtServerHello();
      session, usesCertificate, requiresKeyExchange := session && hello.resumed, hello.certificate, hello.keyExchange;
      HashServerHello();
      if !hello.extensionsOk { return HsError; }
      peer.Next();
      EnterServerFlight(hello);
      return HsOk;
    }

    lemma AtServerHello()
      requires Valid() && state == ReadServerHello
      ensures !certRequest && peer.Progress() == Stage(true, false, false, false, false, false)
    {
    }

    /** The parameters are those of the ServerHello. */
    ghost predicate Agreed(hello: Hello)
      reads this
    {
      && usesCertificate == hello.certificate && requiresKeyExchange == hello.keyExchange
      && statusExpected == hello.status
      && ticketExpected == hello.ticket && nextProto == hello.nextProto && channelId == hello.channelId
    }

    /** The buffer is kept only if a client certificate may be asked for. */
    method HashServerHello()
      requires peer.Valid() && !peer.isServer && peer.Progress() == Stage(true, false, false, false, false, false)
      requires peer.inbox != [] && peer.inbox[0].kind == SERVER_HELLO
      modifies peer`log, peer`flow, peer`pending, peer.transcript
      ensures peer.Valid() && peer.flow == Said(old(peer.flow), true, SERVER_HELLO)
      ensures peer.Progress() == Stage(!session && usesCertificate, true, false, true, false, false)
    {
      peer.InitHash();
      peer.Hash();
      if session || !usesCertificate {
        peer.FreeBuffer();
      }
    }

    method EnterServerFlight(hello: Hello)
      requires state == ReadServerHello && !certRequest
      requires usesCertificate == hello.certificate && requiresKeyExchange == hello.keyExchange
      requires peer.Progress() == Stage(!session && usesCertificate, true, false, false, false, false)
      modifies this`state, this`statusExpected, this`ticketExpected, this`nextProto, this`channelId
      ensures state == (if session then ReadSessionTicket else ReadServerCertificate) && Agreed(hello)
      ensures Negotiated() && Staged()
    {
      hide Peer.Valid, Peer.Progress, RawOf, FlowOf, FlowIn;
      assert Rank() == 16;
      statusExpected, ticketExpected := hello.status, hello.ticket;
      nextProto, channelId := hello.nextProto, hello.channelId;
      state := if session then ReadSessionTicket else ReadServerCertificate;
    }

    // ---- the server's flight of a full handshake ----

    method DoReadServerCertificate(parsed: bool) returns (r: Wait)
      requires Valid() && state == ReadServerCertificate
      modifies this`state, peer`inbox, peer`log, peer`flow, peer`pending, peer.transcript
      ensures r == if !usesCertificate then HsOk
                   else if old(peer.inbox) == [] then HsReadMessage
                   else if old(peer.inbox)[0].kind == CERTIFICATE && parsed then HsOk else HsError
      ensures r != HsError ==> Valid()
      ensures r == HsReadMessage ==> Still()
      ensures r == HsOk ==>
        state == ReadCertificateStatus && peer.flow == Optional(old(peer.flow), usesCertificate, true, CERTIFICATE)
      ensures r == HsOk ==> Left()
    {
      if usesCertificate {
        r := peer.Take(CERTIFICATE, parsed);
        if r != HsOk { return; }
      }
      state := ReadCertificateStatus;
      return HsOk;
    }

    /** A server may change its mind about sending a CertificateStatus. */
    method DoReadCertificateStatus(parsed: bool) returns (r: Wait)
      requires Valid() && state == ReadCertificateStatus
      modifies this`state, this`status, peer`inbox, peer`log, peer`flow, peer`pending, peer.transcript
      ensures r == if !statusExpected then HsOk
                   else if old(peer.inbox) == [] then HsReadMessage
                   else if old(peer.inbox)[0].kind != CERTIFICATE_STATUS || parsed then HsOk else HsError
      ensures r != HsError ==> Valid()
      ensures r == HsReadMessage ==> Still()
      ensures r == HsOk ==>
        && state == VerifyServerCertificate && peer.flow == Optional(old(peer.flow), status, true, CERTIFICATE_STATUS)
        && (status <==> statusExpected && old(peer.inbox)[0].kind == CERTIFICATE_STATUS)
      ensures r == HsOk ==> Left()
    {
      hide Peer.Valid, Peer.Progress, RawOf, FlowOf, FlowIn;
      if statusExpected && peer.inbox == [] {
        return HsReadMessage;
      }
      var came := statusExpected && peer.inbox[0].kind == CERTIFICATE_STATUS;
      if came {
        r := peer.Take(CERTIFICATE_STATUS, parsed);
        if r != HsOk { return; }
      }
      status := came;
      state := VerifyServerCertificate;
      return HsOk;
    }

    /** `ssl_verify_peer_cert`, asked again until it has an answer. */
    method DoVerifyServerCertificate(answer: Answer) returns (r: Wait)
      requires Valid() && state == VerifyServerCertificate
      modifies this`state, this`verified
      ensures r == if !usesCertificate || answer == Yes then HsOk
                   else if answer == No then HsError else HsCertificateVerify
      ensures r != HsError ==> Valid()
      ensures r == HsCertificateVerify ==> Still()
      ensures r == HsOk ==> state == ReadServerKeyExchange && (verified <==> usesCertificate && answer == Yes)
      ensures r == HsOk ==> Left()
    {
      if usesCertificate {
        if answer == No { return HsError; }
        if answer == Retry { return HsCertificateVerify; }
      }
      verified := usesCertificate;
      state := ReadServerKeyExchange;
      return HsOk;
    }

    /** Pure PSK ciphers have an optional ServerKeyExchange. */
    method DoReadServerKeyExchange(parsed: bool) returns (r: Wait)
      requires Valid() && state == ReadServerKeyExchange
      modifies this`state, this`keyExchange, peer`inbox, peer`log, peer`flow, peer`pending, peer.transcript
      ensures r == if old(peer.inbox) == [] then HsReadMessage
                   else if old(peer.inbox)[0].kind == SERVER_KEY_EXCHANGE then (if parsed then HsOk else HsError)
                   else if requiresKeyExchange then HsError else HsOk
      ensures r != HsError ==> Valid()
      ensures r == HsReadMessage ==> Still()
      ensures r == HsOk ==>
        && state == ReadCertificateRequest
        && peer.flow == Optional(old(peer.flow), keyExchange, true, SERVER_KEY_EXCHANGE)
        && (keyExchange <==> old(peer.inbox)[0].kind == SERVER_KEY_EXCHANGE)
      ensures r == HsOk ==> Left()
    {
      hide Peer.Valid, Peer.Progress, RawOf, FlowOf, FlowIn;
      if peer.inbox == [] {
        return HsReadMessage;
      }
      var came := peer.inbox[0].kind == SERVER_KEY_EXCHANGE;
      if !came && requiresKeyExchange {
        return HsError;
      }
      if came {
        r := peer.Take(SERVER_KEY_EXCHANGE, parsed);
        if r != HsOk { return; }
      }
      keyExchange := came;
      state := ReadCertificateRequest;
      return HsOk;
    }

    method DoReadCertificateRequest(parsed: bool) returns (r: Wait)
      requires Valid() && state == ReadCertificateRequest
      modifies this`state, this`certRequest, peer`inbox, peer`log, peer`flow, peer`pending, peer.transcript
      ensures r == if !usesCertificate then HsOk
                   else if old(peer.inbox) == [] then HsReadMessage
                   else if old(peer.inbox)[0].kind == SERVER_HELLO_DONE then HsOk
                   else if old(peer.inbox)[0].kind == CERTIFICATE_REQUEST && parsed then HsOk else HsError
      ensures r != HsError ==> Valid()
      ensures r == HsReadMessage ==> Still()
      ensures r == HsOk ==>
        && state == ReadServerHelloDone && peer.flow == Optional(old(peer.flow), certRequest, true, CERTIFICATE_REQUEST)
        && (certRequest <==> usesCertificate && old(peer.inbox)[0].kind == CERTIFICATE_REQUEST)
      ensures r == HsOk ==> Left()
    {
      hide Peer.Valid, Peer.Progress, RawOf, FlowOf, FlowIn;
      if usesCertificate && peer.inbox == [] {
        return HsReadMessage;
      }
      var came := usesCertificate && peer.inbox[0].kind != SERVER_HELLO_DONE;
      if came {
        r := peer.Take(CERTIFICATE_REQUEST, parsed);
        if r != HsOk { return; }
      } else if usesCertificate {
        // no client certificate, no need for the buffer
        peer.FreeBuffer();
      }
      certRequest := came;
      state := ReadServerHelloDone;
      return HsOk;
    }

    method DoReadServerHelloDone(parsed: bool) returns (r: Wait)
      requires Valid() && state == ReadServerHelloDone
      modifies this`state, peer`inbox, peer`log, peer`flow, peer`pending, peer.transcript
      ensures r == if old(peer.inbox) == [] then HsReadMessage
                   else if old(peer.inbox)[0].kind == SERVER_HELLO_DONE && parsed then HsOk else HsError
      ensures r != HsError ==> Valid()
      ensures r == HsReadMessage ==> Still()
      ensures r == HsOk ==> state == SendClientCertificate && peer.flow == Said(old(peer.flow), true, SERVER_HELLO_DONE)
      ensures r == HsOk ==> Left()
    {
      hide Peer.Valid, Peer.Progress, RawOf, FlowOf, FlowIn;
      r := peer.Take(SERVER_HELLO_DONE, parsed);
      if r == HsOk { state := SendClientCertificate; }
    }

    // ---- the client's flight ----

    /** The certificate callback is asked again until it has an answer; without a certificate the buffer goes. */
    method DoSendClientCertificate(answer: Answer, has: bool, body: Octets) returns (r: Wait)
      requires Valid() && state == SendClientCertificate
      modifies this`state, this`hasCertificate, peer`outbox, peer`log, peer`flow, peer.transcript
      ensures r == if !certRequest || answer == Yes then HsOk else if answer == No then HsError else HsX509Lookup
      ensures r != HsError ==> Valid()
      ensures r == HsX509Lookup ==> Still()
      ensures r == HsOk ==>
        && state == SendClientKeyExchange && peer.flow == Optional(old(peer.flow), certRequest, false, CERTIFICATE)
        && (certRequest ==> hasCertificate == has)
      ensures r == HsOk ==> Left()
    {
      hide Peer.Valid, Peer.Progress, RawOf, FlowOf, FlowIn;
      if !certRequest {
        state := SendClientKeyExchange;
        return HsOk;
      }
      if answer == No { return HsError; }
      if answer == Retry { return HsX509Lookup; }
      SendCertificate(has, body);
      hasCertificate := has;
      state := SendClientKeyExchange;
      return HsOk;
    }

    method SendCertificate(has: bool, body: Octets)
      requires peer.Valid() && !peer.isServer && peer.Progress() == Stage(true, true, true, false, false, false)
      modifies peer`outbox, peer`log, peer`flow, peer.transcript
      ensures peer.Valid() && peer.Progress() == Stage(has, true, true, false, false, false)
      ensures peer.flow == Said(old(peer.flow), false, CERTIFICATE)
    {
      if !has {
        peer.FreeBuffer();
      }
      peer.Send(CERTIFICATE, body);
    }

    method DoSendClientKeyExchange(ok: bool, body: Octets) returns (r: Wait)
      requires Valid() && state == SendClientKeyExchange
      modifies this`state, peer`outbox, peer`log, peer`flow, peer.transcript
      ensures r == if ok then HsOk else HsError
      ensures ok ==>
        Valid() && state == SendClientCertificateVerify && peer.flow == Said(old(peer.flow), false, CLIENT_KEY_EXCHANGE)
      ensures r == HsOk ==> Left()
    {
      hide Peer.Valid, Peer.Progress, RawOf, FlowOf, FlowIn;
      if !ok { return HsError; }
      peer.Send(CLIENT_KEY_EXCHANGE, body);
      state := SendClientCertificateVerify;
      return HsOk;
    }

    /** The signature covers the raw transcript, which has not changed while the key was asked again. */
    method DoSendClientCertificateVerify(answer: Answer, sign: Octets -> Octets) returns (r: Wait)
      requires Valid() && state == SendClientCertificateVerify
      modifies this`state, peer`outbox, peer`log, peer`flow, peer.transcript
      ensures r == if !certRequest || !hasCertificate || answer == Yes then HsOk
                   else if answer == No then HsError else HsPrivateKeyOperation
      ensures r != HsError ==> Valid()
      ensures r == HsPrivateKeyOperation ==> Still()
      ensures r == HsOk ==>
        && state == SendClientFinished
        && peer.flow == Optional(old(peer.flow), certRequest && hasCertificate, false, CERTIFICATE_VERIFY)
      ensures r == HsOk && certRequest && hasCertificate ==>
        peer.log.Told? && peer.log.msg.body == sign(RawOf(old(peer.log)))
      ensures r == HsOk ==> Left()
    {
      hide Peer.Valid, Peer.Progress, RawOf, FlowOf, FlowIn;
      if certRequest && hasCertificate {
        var data := peer.SignedTranscript();
        if answer == No { return HsError; }
        if answer == Retry { return HsPrivateKeyOperation; }
        peer.Send(CERTIFICATE_VERIFY, sign(data));
        peer.FreeBuffer();
      }
      state := SendClientFinished;
      return HsOk;
    }

    /** The Channel ID callback comes before anything that cannot be done twice. */
    method DoSendClientFinished(answer: Answer, nextProtoBody: Octets, channelIdBody: Octets) returns (r: Wait)
      requires Valid() && state == SendClientFinished
      modifies this`state, peer`outbox, peer`log, peer`flow, peer`writeCipher, peer.transcript
      ensures r == if !channelId || answer == Yes then HsFlush else if answer == No then HsError else HsChannelIdLookup
      ensures r != HsError ==> Valid()
      ensures r == HsChannelIdLookup ==> Still()
      ensures r == HsFlush ==> state == FinishFlight && peer.flow == ClientFinish(old(peer.flow), Opts())
      ensures r == HsFlush ==> Left()
    {
      hide Peer.Valid, Peer.Progress, RawOf, FlowOf, FlowIn, ClientFinish, Extras, Optional;
      if channelId {
        if answer == No { return HsError; }
        if answer == Retry { return HsChannelIdLookup; }
      }
      SendFinish(nextProtoBody, channelIdBody);
      state := FinishFlight;
      return HsFlush;
    }

    method SendFinish(nextProtoBody: Octets, channelIdBody: Octets)
      requires peer.Valid() && !peer.isServer
      requires var p := peer.Progress(); p.maySend && p.hash && !p.buffer
      modifies peer`outbox, peer`log, peer`flow, peer`writeCipher, peer.transcript
      ensures peer.Valid() && peer.Progress() == old(peer.Progress()).(maySend := false, writeCipher := true)
      ensures peer.flow == ClientFinish(old(peer.flow), Opts())
    {
      peer.ChangeWriteCipher();
      SendExtras(nextProtoBody, channelIdBody);
      peer.SendFinished();
    }

    /** NextProtocol and ChannelID, if negotiated. */
    method SendExtras(nextProtoBody: Octets, channelIdBody: Octets)
      requires peer.Valid() && !peer.isServer && peer.Progress().maySend
      modifies peer`outbox, peer`log, peer`flow, peer.transcript
      ensures peer.Valid() && peer.Progress() == old(peer.Progress())
      ensures peer.flow == Extras(old(peer.flow), Opts())
    {
      if nextProto {
        peer.Send(NEXT_PROTO, nextProtoBody);
      }
      if channelId {
        peer.Send(CHANNEL_ID, channelIdBody);
      }
    }

    /** With False Start the caller may write already, though the server's Finished is still to come. */
    method DoFinishFlight(hashes: bool, falseStart: bool) returns (r: Wait)
      requires Valid() && state == FinishFlight
      modifies this`state
      ensures r == if session then HsOk
                   else if !hashes then HsError
                   else if !isDtls && falseStart then HsEarlyReturn else HsOk
      ensures r != HsError ==> Valid() && state == if session then FinishClientHandshake else ReadSessionTicket
      ensures r != HsError ==> Left()
    {
      hide Peer.Valid, Peer.Progress, RawOf, FlowOf, FlowIn;
      if !session && !hashes { return HsError; }
      r := if !session && !isDtls && falseStart then HsEarlyReturn else HsOk;
      state := if session then FinishClientHandshake else ReadSessionTicket;
    }

    // ---- the server's Finished ----

    /** A ticket that was promised must come, if only an empty one. */
    method DoReadSessionTicket(parsed: bool, empty: bool) returns (r: Wait)
      requires Valid() && state == ReadSessionTicket
      modifies this`state, this`ticket, this`ticketExpected, peer`inbox, peer`log, peer`flow, peer`pending,
               peer.transcript
      ensures r == if !old(ticketExpected) then HsReadChangeCipherSpec
                   else if old(peer.inbox) == [] then HsReadMessage
                   else if old(peer.inbox)[0].kind == NEW_SESSION_TICKET && parsed then HsReadChangeCipherSpec
                   else HsError
      ensures r != HsError ==> Valid()
      ensures r == HsReadMessage ==> Still()
      ensures r == HsReadChangeCipherSpec ==>
        && state == ProcessChangeCipherSpec && ticket == old(ticketExpected)
        && ticketExpected == (old(ticketExpected) && !empty)
        && peer.flow == Optional(old(peer.flow), ticket, true, NEW_SESSION_TICKET)
      ensures r == HsReadChangeCipherSpec ==> Left()
    {
      hide Peer.Valid, Peer.Progress, RawOf, FlowOf, RankOf;
      if ticketExpected {
        r := peer.Take(NEW_SESSION_TICKET, parsed);
        if r != HsOk { return; }
      }
      LeaveTicket(empty);
      return HsReadChangeCipherSpec;
    }

    /** The ticket is there if it was promised; an empty one is dropped. */
    method LeaveTicket(empty: bool)
      requires state == ReadSessionTicket && Staged() && Negotiated()
      modifies this`state, this`ticket, this`ticketExpected
      ensures Staged() && Negotiated() && state == ProcessChangeCipherSpec
      ensures ticket == old(ticketExpected) && ticketExpected == (old(ticketExpected) && !empty)
    {
      hide Peer.Progress;
      ticket, ticketExpected := ticketExpected, ticketExpected && !empty;
      state := ProcessChangeCipherSpec;
    }

    method DoProcessChangeCipherSpec(keys: bool) returns (r: Wait)
      requires Valid() && state == ProcessChangeCipherSpec && peer.ccsSeen
      modifies this`state, peer`log, peer`flow, peer`readCipher
      ensures r == if keys then HsOk else HsError
      ensures keys ==> Valid() && state == ReadServerFinished && peer.flow == Changed(old(peer.flow), true)
      ensures r == HsOk ==> Left()
    {
      hide Peer.Valid, Peer.Progress, RawOf, FlowOf, FlowIn;
      if !keys { return HsError; }
      peer.ChangeReadCipher();
      state := ReadServerFinished;
      return HsOk;
    }

    /** Anything but the server's MAC over the transcript so far is an error. */
    method DoReadServerFinished() returns (r: Wait)
      requires Valid() && state == ReadServerFinished
      modifies this`state, peer`inbox, peer`log, peer`flow, peer`pending, peer.transcript
      ensures r == if old(peer.inbox) == [] then HsReadMessage
                   else if && old(peer.inbox)[0].kind == FINISHED
                           && old(peer.inbox)[0].body == peer.mac(RawOf(old(peer.log)), true)
                   then HsOk else HsError
      ensures r != HsError ==> Valid()
      ensures r == HsReadMessage ==> Still()
      ensures r == HsOk ==>
        && state == (if session then SendClientFinished else FinishClientHandshake)
        && peer.flow == Said(old(peer.flow), true, FINISHED)
      ensures r == HsOk ==> Left()
    {
      hide Peer.Valid, Peer.Progress, RawOf, FlowOf, FlowIn, Optional, AfterTicket, RankOf, Client.Staged,
           Client.Negotiated, Client.KeepsBuffer;
      AtServerFinished();
      r := peer.GetFinished();
      if r == HsReadMessage { Undisturbed(); }
      if r == HsOk { LeaveFinished(); }
    }

    lemma AtServerFinished()
      requires Valid() && state == ReadServerFinished
      ensures peer.Progress() == Stage(false, true, false, false, !session, true)
    {
    }

    /** The last message of a full handshake, or the last of the server's in a resumed one. */
    method LeaveFinished()
      requires state == ReadServerFinished && Negotiated()
      requires peer.Progress() == Stage(false, true, true, false, !session, true)
      modifies this`state
      ensures state == (if session then SendClientFinished else FinishClientHandshake) && Negotiated() && Staged()
    {
      hide Peer.Progress;
      state := if session then SendClientFinished else FinishClientHandshake;
    }

    method DoFinishClientHandshake(established: bool) returns (r: Wait)
      requires Valid() && state == FinishClientHandshake
      modifies this`state
      ensures r == if established || session then HsOk else HsError
      ensures r == HsOk ==> Valid() && state == Done
      ensures r == HsOk ==> Left()
    {
      if !session && !established { return HsError; }
      state := Done;
      return HsOk;
    }

    // ---- the state machine ----

    /** What a state may wait for. */
    predicate Asks(r: Wait)
      reads `state, `session
    {
      match r
      case HsFlush => state in {EnterEarlyData, ReadServerHello, FinishFlight}
      case HsReadServerHello => state == ReadServerHello
      case HsReadMessage =>
        state in {ReadHelloVerifyRequest, ReadServerCertificate, ReadCertificateStatus, ReadServerKeyExchange,
                  ReadCertificateRequest, ReadServerHelloDone, ReadSessionTicket, ReadServerFinished}
      case HsReadChangeCipherSpec => state == ProcessChangeCipherSpec
      case HsEarlyReturn => state == ReadSessionTicket && !session
      case HsCertificateVerify => state == VerifyServerCertificate
      case HsX509Lookup => state == SendClientCertificate
      case HsPrivateKeyOperation => state == SendClientCertificateVerify
      case HsChannelIdLookup => state == SendClientFinished
      case HsOk | HsError => true
      case _ => false
    }

    /** A message that the state has no use for. */
    ghost predicate Unwelcome(m: Msg)
      reads this, peer
    {
      match state
      case ReadServerHello => m.kind != SERVER_HELLO
      case ReadServerCertificate => usesCertificate && m.kind != CERTIFICATE
      case ReadServerKeyExchange => requiresKeyExchange && m.kind != SERVER_KEY_EXCHANGE
      case ReadCertificateRequest => usesCertificate && m.kind !in {CERTIFICATE_REQUEST, SERVER_HELLO_DONE}
      case ReadServerHelloDone => m.kind != SERVER_HELLO_DONE
      case ReadSessionTicket => ticketExpected && m.kind != NEW_SESSION_TICKET
      case ReadServerFinished => m.kind != FINISHED || m.body != peer.mac(RawOf(peer.log), true)
      case _ => false
    }

    /** What is outside refused something, or the message that came is not welcome. */
    ghost predicate MayFail(w: World, hello: Hello)
      reads this, peer
    {
      !w.ok || w.answer == No || !hello.ok || !hello.extensionsOk || (peer.inbox != [] && Unwelcome(peer.inbox[0]))
    }

    /**
    A step fails, stays where it is, or leaves its state having said what belongs to it. It stays only for want
    of a message or of an answer.
    */
    twostate predicate Stepped(r: Wait)
      reads this, peer, peer.transcript
    {
      && (r != HsError ==>
            && Valid()
            && (r == HsReadChangeCipherSpec <==> state == ProcessChangeCipherSpec)
            && (old(state) == ProcessChangeCipherSpec ==> r == HsOk)
            && (|| Still() || Left() || Restarted()))
      && Asks(r) && (ForMessage(r) ==> Still() && peer.inbox == [])
      && (r in {HsOk, HsFlush, HsReadChangeCipherSpec, HsEarlyReturn} ==> state != old(state))
      && (peer.received == old(peer.received) || (Restarted() && Dropped(old(peer.inbox), peer.received)))
    }

    twostate predicate Left()
      reads this, peer`flow
    {
      && Edge(old(state), state, session) && Settled(old(state), old(Opts()), Opts())
      && (BeforeServerHello(old(state)) || old(session) == session)
      && peer.flow == Leaves(old(peer.flow), old(state), Opts())
    }

    twostate predicate Restarted()
      reads this, peer`flow
    {
      old(state) == ReadHelloVerifyRequest && state == ReadServerHello && peer.flow == AfterClientHello()
    }

    /** Before the ServerHello nothing of the server's is in the transcript. */
    lemma NothingTold()
      requires Valid() && OnCourse() && state == ReadHelloVerifyRequest
      ensures peer.received == peer.inbox
    {
      assert FlowOf(peer.log) == AfterClientHello();
      assert peer.log.Told? && FlowOf(peer.log.prev) == Start && peer.log.prev == Begun;
      assert By(peer.log, true) == [];
      assert [] + peer.inbox == peer.inbox;
    }

    method StepHello(w: World, hello: Hello) returns (r: Wait)
      requires Valid() && BeforeServerHello(state)
      modifies this, peer, peer.transcript
      ensures Stepped(r) && (r == HsError ==> old(MayFail(w, hello)))
      ensures Pauses(r) ==> w.answer == Retry
    {
      hide Peer.Valid, Peer.Progress, Client.Staged, Client.Negotiated, RawOf, FlowOf, FlowIn, RankOf,
           Client.KeepsBuffer, AfterClientHello, AfterServerHello;
      match state {
        case StartConnect => r := DoStartConnect(w.ok, w.choice, w.body);
        case EnterEarlyData => r := DoEnterEarlyData();
        case ReadHelloVerifyRequest => r := DoReadHelloVerifyRequest(w.ok, w.body);
        case ReadServerHello => r := DoReadServerHello(hello);
      }
    }

    method StepServerCertificate(w: World, ghost hello: Hello) returns (r: Wait)
      requires Valid() && state in {ReadServerCertificate, ReadCertificateStatus, VerifyServerCertificate}
      modifies this, peer, peer.transcript
      ensures Stepped(r) && (r == HsError ==> old(MayFail(w, hello)))
      ensures Pauses(r) ==> w.answer == Retry
    {
      hide Client.Left, Edge, Settled, Leaves, Peer.Valid, Peer.Progress, Client.Staged, Client.Negotiated, RawOf,
           FlowOf, FlowIn, RankOf, Dropped, Client.KeepsBuffer, AfterClientHello, AfterServerHello;
      match state {
        case ReadServerCertificate => r := DoReadServerCertificate(w.ok);
        case ReadCertificateStatus => r := DoReadCertificateStatus(w.ok);
        case VerifyServerCertificate => r := DoVerifyServerCertificate(w.answer);
      }
    }

    method StepServerKey(w: World, ghost hello: Hello) returns (r: Wait)
      requires Valid() && state in {ReadServerKeyExchange, ReadCertificateRequest, ReadServerHelloDone}
      modifies this, peer, peer.transcript
      ensures Stepped(r) && (r == HsError ==> old(MayFail(w, hello)))
      ensures Pauses(r) ==> w.answer == Retry
    {
      hide Client.Left, Edge, Settled, Leaves, Peer.Valid, Peer.Progress, Client.Staged, Client.Negotiated, RawOf,
           FlowOf, FlowIn, RankOf, Dropped, Client.KeepsBuffer, AfterClientHello, AfterServerHello;
      match state {
        case ReadServerKeyExchange => r := DoReadServerKeyExchange(w.ok);
        case ReadCertificateRequest => r := DoReadCertificateRequest(w.ok);
        case ReadServerHelloDone => r := DoReadServerHelloDone(w.ok);
      }
    }

    method StepClientFlight(w: World, ghost hello: Hello, sign: Octets -> Octets) returns (r: Wait)
      requires Valid() && state in {SendClientCertificate, SendClientKeyExchange, SendClientCertificateVerify}
      modifies this, peer, peer.transcript
      ensures Stepped(r) && (r == HsError ==> old(MayFail(w, hello)))
      ensures Pauses(r) ==> w.answer == Retry
    {
      hide Client.Left, Edge, Settled, Leaves, Peer.Valid, Peer.Progress, Client.Staged, Client.Negotiated, RawOf,
           FlowOf, FlowIn, RankOf, Dropped, Client.KeepsBuffer, AfterClientHello, AfterServerHello;
      match state {
        case SendClientCertificate => r := DoSendClientCertificate(w.answer, w.choice, w.body);
        case SendClientKeyExchange => r := DoSendClientKeyExchange(w.ok, w.body);
        case SendClientCertificateVerify => r := DoSendClientCertificateVerify(w.answer, sign);
      }
    }

    method StepClientFinish(w: World, ghost hello: Hello) returns (r: Wait)
      requires Valid() && state in {SendClientFinished, FinishFlight, FinishClientHandshake}
      modifies this, peer, peer.transcript
      ensures Stepped(r) && (r == HsError ==> old(MayFail(w, hello)))
      ensures Pauses(r) ==> w.answer == Retry
    {
      hide Client.Left, Edge, Settled, Leaves, Peer.Valid, Peer.Progress, Client.Staged, Client.Negotiated, RawOf,
           FlowOf, FlowIn, RankOf, Dropped, Client.KeepsBuffer, AfterClientHello, AfterServerHello;
      match state {
        case SendClientFinished => r := DoSendClientFinished(w.answer, w.body, w.more);
        case FinishFlight => r := DoFinishFlight(w.ok, w.choice);
        case FinishClientHandshake => r := DoFinishClientHandshake(w.ok);
      }
    }

    method StepServerFinish(w: World, ghost hello: Hello) returns (r: Wait)
      requires Valid() && state in {ReadSessionTicket, ProcessChangeCipherSpec, ReadServerFinished}
      requires state == ProcessChangeCipherSpec ==> peer.ccsSeen
      modifies this, peer, peer.transcript
      ensures Stepped(r) && (r == HsError ==> old(MayFail(w, hello)))
      ensures Pauses(r) ==> w.answer == Retry
    {
      hide Client.Left, Edge, Settled, Leaves, Peer.Valid, Peer.Progress, Client.Staged, Client.Negotiated, RawOf,
           FlowOf, FlowIn, RankOf, Dropped, Client.KeepsBuffer, AfterClientHello, AfterServerHello;
      match state {
        case ReadSessionTicket => r := DoReadSessionTicket(w.ok, w.choice);
        case ProcessChangeCipherSpec => r := DoProcessChangeCipherSpec(w.ok);
        case ReadServerFinished => r := DoReadServerFinished();
      }
    }

    /** The switch of `ssl_client_handshake`. */
    method Step(w: World, hello: Hello, sign: Octets -> Octets) returns (r: Wait)
      requires Valid() && state != Done && (state == ProcessChangeCipherSpec ==> peer.ccsSeen)
      modifies this, peer, peer.transcript
      ensures Stepped(r) && (r == HsError ==> old(MayFail(w, hello)))
      ensures Pauses(r) ==> w.answer == Retry
    {
      if BeforeServerHello(state) {
        r := StepHello(w, hello);
      } else if state in {ReadServerCertificate, ReadCertificateStatus, VerifyServerCertificate} {
        r := StepServerCertificate(w, hello);
      } else if state in {ReadServerKeyExchange, ReadCertificateRequest, ReadServerHelloDone} {
        r := StepServerKey(w, hello);
      } else if state in {ReadSessionTicket, ProcessChangeCipherSpec, ReadServerFinished} {
        r := StepServerFinish(w, hello);
      } else if state in {SendClientFinished, FinishFlight, FinishClientHandshake} {
        r := StepClientFinish(w, hello);
      } else {
        r := StepClientFlight(w, hello, sign);
      }
    }

    /** A step keeps the handshake on course and, if it leaves its state, comes nearer to the end. */
    twostate lemma StepKeeps(r: Wait)
      requires old(Valid()) && old(OnCourse()) && Stepped(r) && r != HsError
      ensures OnCourse() && Rank() <= old(Rank()) && (state != old(state) ==> Rank() < old(Rank()))
    {
      if Left() {
        FlowMoves(old(state), state, old(session), session, old(Opts()), Opts());
      }
    }

    /** `ssl_client_handshake`: steps until something has to be waited for, or to the end. */
    method Handshake(sign: Octets -> Octets) returns (r: Wait)
      requires Valid() && OnCourse() && (state == ProcessChangeCipherSpec ==> peer.ccsSeen)
      modifies this, peer, peer.transcript
      ensures r != HsError ==> Valid() && OnCourse() && Rank() <= old(Rank())
      ensures r == HsOk ==> state == Done
      ensures r != HsError ==> (r == HsReadChangeCipherSpec <==> state == ProcessChangeCipherSpec)
      ensures r != HsError && old(state) == ProcessChangeCipherSpec ==> Rank() < old(Rank())
      // whatever it waits for is missing
      ensures Asks(r) && (ForMessage(r) ==> peer.inbox == [])
      ensures Since(old(peer.received), old(Rank()))
      ensures r != HsError ==> peer.received == old(peer.received) || Rank() <= RESTARTED
    {
      hide Peer.Valid, Peer.Progress, RankOf, RawOf, FlowOf, FlowIn, Client.Unwelcome, Client.Staged,
           Client.Negotiated, Client.Left, Client.OnCourse, Client.MayFail;
      while state != Done
        invariant Valid() && OnCourse() && (state == ProcessChangeCipherSpec ==> peer.ccsSeen)
        invariant (state == old(state) && Rank() == old(Rank())) || Rank() < old(Rank())
        invariant Since(old(peer.received), old(Rank()))
        invariant peer.received == old(peer.received) || Rank() <= RESTARTED
        decreases Rank()
      {
        // whatever the outside says
        var w: World, hello: Hello := *, *;
        if state == ReadHelloVerifyRequest { NothingTold(); }
        RestartRank();
        label before:
        r := Step(w, hello, sign);
        RestartRank();
        if r == HsError { return; }
        StepKeeps@before(r);
        if r != HsOk { return; }
      }
      return HsOk;
    }

    /** What has come is what had come before, or without the HelloVerifyRequest that made the handshake restart. */
    ghost predicate Since(before: seq<Msg>, rank: nat)
      reads peer`received
    {
      peer.received == before || (Dropped(before, peer.received) && rank > RESTARTED)
    }

    lemma RestartRank()
      ensures state == ReadHelloVerifyRequest ==> Rank() > RESTARTED
      ensures state == ReadServerHello ==> Rank() == RESTARTED
    {
    }

    // ---- whole runs ----

    /** Between calls: the handshake has failed, or it is on course and knows what it waits for. */
    ghost predicate Ready(wait: Wait)
      reads this, peer, peer.transcript
    {
      wait != HsError ==>
        && Valid() && OnCourse()
        && (state == ProcessChangeCipherSpec ==> peer.ccsSeen || wait == HsReadChangeCipherSpec)
        && Asks(wait) && (ForMessage(wait) ==> peer.inbox == [])
    }

    /** A finished handshake: exactly the messages of the RFC, both Finished right, the certificate verified. */
    ghost predicate Completed()
      reads this, peer, peer.transcript
    {
      && peer.Valid() && peer.flow == (if session then ResumedFlow(Opts()) else FullFlow(Opts()))
      && (!session && usesCertificate ==> verified) && (!session && requiresKeyExchange ==> keyExchange)
      && peer.readCipher && peer.writeCipher && peer.ccsSeen
    }

    /** What comes from the transport leaves the handshake where it is. */
    twostate lemma Undisturbed()
      requires old(Valid()) && unchanged(this) && peer.Valid() && peer.flow == old(peer.flow)
      requires peer.Progress() == old(peer.Progress())
      ensures Valid() && (old(OnCourse()) ==> OnCourse())
    {
      hide Peer.Valid, Peer.Progress, RankOf, RawOf, FlowOf, FlowIn;
    }

    /** The wait is over, or goes on; `took` is the event that was waited for, if it came. */
    method Wake(wait: Wait, events: seq<Event>)
      returns (now: Wait, verdict: Verdict, rest: seq<Event>, ghost took: seq<Event>)
      requires wait != HsError && Ready(wait)
      modifies peer`inbox, peer`received, peer`ccsArrived, peer`ccsSeen
      ensures Valid() && OnCourse() && now != HsError
      ensures verdict == Proceed && state == ProcessChangeCipherSpec ==> peer.ccsSeen
      ensures verdict != Proceed ==> Ready(now) && (verdict == Again ==> took != [])
      ensures verdict == Return(true) ==> state == ReadSessionTicket && !session
      ensures took <= events && |took| <= 1 && peer.received == old(peer.received) + MessagesOf(took)
      ensures rest == events[|took|..] || (verdict == Return(false) && Ended(now, events, took, rest))
      ensures verdict == Return(false) ==> Stops(now, events, took)
      ensures verdict == Proceed && took == [] ==> wait == HsOk || state == ProcessChangeCipherSpec
    {
      hide Peer.Valid, Peer.Progress, RankOf, RawOf, FlowOf, FlowIn, Client.Valid, Client.OnCourse, MessagesOf;
      assert peer.Valid() by { PeerValid(); }
      now, verdict, rest, took := peer.Resolve(wait, events, isDtls);
      Undisturbed();
      if took != [] { OneEvent(events[0]); } else { NoMessages(peer.received); }
    }

    /**
    One turn of `ssl_run_handshake`: if there is nothing to wait for any more, the handshake goes on. `took` is
    the event that was waited for, if it came.
    */
    method Advance(wait: Wait, events: seq<Event>, sign: Octets -> Octets)
      returns (now: Wait, verdict: Verdict, rest: seq<Event>, ghost took: seq<Event>)
      requires wait != HsError && Ready(wait)
      modifies this, peer, peer.transcript
      ensures Ready(now) && (verdict != Return(false) ==> now != HsError)
      ensures verdict == Return(true) ==> state == ReadSessionTicket && !session
      ensures verdict == Proceed ==> state == Done
      ensures verdict == Again ==>
        && |rest| <= |events|
        && (|rest| < |events| || Rank() < old(Rank()) || (Rank() == old(Rank()) && now != HsOk && wait == HsOk))
      ensures took <= events && |took| <= 1 && Since(old(peer.received) + MessagesOf(took), old(Rank()))
      ensures now != HsError ==>
        && Rank() <= old(Rank())
        && (peer.received == old(peer.received) + MessagesOf(took) || Rank() <= RESTARTED)
      ensures rest == events[|took|..] || (verdict == Return(false) && Ended(now, events, took, rest))
      ensures verdict == Return(false) ==> Stops(now, events, took)
    {
      hide Peer.Valid, Peer.Progress, RankOf, RawOf, FlowOf, FlowIn, Client.Valid, Client.OnCourse, MessagesOf;
      now, verdict, rest, took := Wake(wait, events);
      if verdict == Proceed {
        now := Handshake(sign);
        verdict := if now == HsError then Return(false) else if now == HsOk then Proceed else Again;
      }
    }

    /** The states that may ask the application for something. */
    predicate MayPause()
      reads `state
    {
      state in {VerifyServerCertificate, SendClientCertificate, SendClientCertificateVerify, SendClientFinished}
    }

    /** A call has failed, the application is asked, or the transport does not yield what is waited for. */
    predicate Stops(now: Wait, events: seq<Event>, took: seq<Event>)
      requires |took| <= |events|
      reads `state, peer`readCipher
    {
      now == HsError || (now == HsOk && MayPause()) || (ForTransport(now) && Starved(now, events, took))
    }

    /** The event behind those taken is not one that is waited for, or there is none. */
    predicate Starved(now: Wait, events: seq<Event>, took: seq<Event>)
      requires |took| <= |events|
      reads peer`readCipher
    {
      |took| == |events| || !Takes(now, isDtls, peer.readCipher, events[|took|])
    }

    /** It was looked at and ended the call. */
    predicate Ended(now: Wait, events: seq<Event>, took: seq<Event>, rest: seq<Event>)
      requires |took| <= |events|
      reads peer`readCipher
    {
      |took| < |events| && !Takes(now, isDtls, peer.readCipher, events[|took|]) && rest == events[|took| + 1..]
    }

    lemma AtFalseStart()
      requires Valid() && state == ReadSessionTicket && !session
      ensures usesCertificate ==> verified
    {
    }

    lemma PeerValid()
      requires Valid()
      ensures peer.Valid()
    {
    }

    lemma AtTheEnd()
      requires Valid() && OnCourse() && state == Done
      ensures Completed()
    {
    }

    /**
    `ssl_run_handshake`, for any behaviour of the transport and any number of calls: each is given what the
    call before was left waiting for, `HsOk` at first. What has come is just the messages among the events
    taken. A call that does not finish has failed, or the application is asked for something, or the transport
    does not yield what is waited for.
    */
    method Run(wait: Wait, events: seq<Event>, sign: Octets -> Octets)
      returns (now: Wait, outcome: Outcome, rest: seq<Event>, ghost heard: seq<Event>)
      requires Ready(wait)
      modifies this, peer, peer.transcript
      ensures Ready(now)
      ensures outcome == Finished ==> state == Done && Completed()
      ensures outcome == Early ==> state == ReadSessionTicket && !session && (usesCertificate ==> verified)
      ensures wait == HsError ==> outcome == Unfinished && now == HsError && heard == [] && rest == events
      ensures heard <= events && Since(old(peer.received) + MessagesOf(heard), old(Rank()))
      ensures rest == events[|heard|..] || (outcome == Unfinished && Ended(now, events, heard, rest))
      ensures outcome == Unfinished ==> Stops(now, events, heard)
    {
      hide Peer.Valid, Client.Completed, RawOf, FlowIn, MessagesOf, RankOf, Client.Valid, Client.OnCourse, Takes;
      now, rest, heard := wait, events, [];
      assert old(peer.received) + MessagesOf([]) == old(peer.received) by { NoMessages(old(peer.received)); }
      if wait == HsError { return now, Unfinished, rest, heard; }
      var verdict := Again;
      while verdict == Again
        invariant Ready(now) && (verdict != Return(false) ==> now != HsError)
        invariant verdict == Return(true) ==> state == ReadSessionTicket && !session
        invariant verdict == Proceed ==> state == Done
        invariant heard <= events && Since(old(peer.received) + MessagesOf(heard), old(Rank()))
        invariant now != HsError ==>
          Rank() <= old(Rank()) && (peer.received == old(peer.received) + MessagesOf(heard) || Rank() <= RESTARTED)
        invariant rest == events[|heard|..] || (verdict == Return(false) && Ended(now, events, heard, rest))
        invariant verdict == Return(false) ==> Stops(now, events, heard)
        decreases verdict == Again, |rest|, Rank(), now == HsOk
      {
        ghost var took, before, came := [], peer.received, heard;
        now, verdict, rest, took := Advance(now, rest, sign);
        heard := heard + took;
        MoreHeard(old(peer.received), came, took, before);
        Further(events, came, took);
      }
      if verdict == Proceed { AtTheEnd(); }
      if verdict == Return(true) { AtFalseStart(); }
      outcome := if verdict == Proceed then Finished else if verdict.early then Early else Unfinished;
    }
  }
}
