/**
The TLS server handshake up to TLS 1.2, full and resumed (section 7.3 of RFC 5246 and section 3.3
of RFC 5077), with asynchronous callbacks.

One method per `do_*` function of `handshake_server.cc`, in the manner of `ClientHandshake`. The flows are
the same ones: what a client and a server have said when they are done is described once.
*/
module ServerHandshake {
  import opened Bytes
  import opened HandshakeFlow
  import opened HandshakePeer

  datatype State =
    | StartAccept | ReadClientHello | SelectCertificate | SelectParameters
    | SendServerHello | SendServerCertificate | SendServerKeyExchange | SendServerHelloDone
    | ReadClientCertificate | VerifyClientCertificate | ReadClientKeyExchange | ReadClientCertificateVerify
    | ReadChangeCipherSpec | ProcessChangeCipherSpec | ReadNextProto | ReadChannelId | ReadClientFinished
    | SendServerFinished | FinishServerHandshake | Done

  /** Distance from the end: resumed handshakes send the server's Finished before reading the client's. */
  function RankOf(state: State, resumed: bool): nat
  {
    match state
    case StartAccept => 19
    case ReadClientHello => 18
    case SelectCertificate => 17
    case SelectParameters => 16
    case SendServerHello => 15
    case SendServerCertificate => 14
    case SendServerKeyExchange => 13
    case SendServerHelloDone => 12
    case ReadClientCertificate => 11
    case VerifyClientCertificate => 10
    case ReadClientKeyExchange => 9
    case ReadClientCertificateVerify => 8
    case ReadChangeCipherSpec => if resumed then 6 else 7
    case ProcessChangeCipherSpec => if resumed then 5 else 6
    case ReadNextProto => if resumed then 4 else 5
    case ReadChannelId => if resumed then 3 else 4
    case ReadClientFinished => if resumed then 2 else 3
    case SendServerFinished => if resumed then 7 else 2
    case FinishServerHandshake => 1
    case Done => 0
  }

  /** States in which the ClientHello has not been hashed and resumption is not decided. */
  predicate BeforeParameters(s: State)
  {
    s.StartAccept? || s.ReadClientHello? || s.SelectCertificate? || s.SelectParameters?
  }

  predicate SendsIn(s: State, resumed: bool)
  {
    match s
    case SendServerHello => true
    case SendServerCertificate => true
    case SendServerKeyExchange => true
    case SendServerHelloDone => true
    case SendServerFinished => true
    case FinishServerHandshake => resumed
    case Done => resumed
    case _ => false
  }

  predicate WriteCipherIn(s: State, resumed: bool)
  {
    RankOf(s, resumed) <= if resumed then 6 else 1
  }

  predicate ReadCipherIn(s: State, resumed: bool)
  {
    RankOf(s, resumed) <= if resumed then 4 else 5
  }

  // ---- flows ----

  /** What has been said when a state is entered. */
  function FlowIn(s: State, resumed: bool, o: Options): Flow
  {
    match s
    case StartAccept => Start
    case ReadClientHello => Start
    case SelectCertificate => Start
    case SelectParameters => Start
    case SendServerHello => AfterClientHello()
    case SendServerCertificate => AfterServerHello()
    case SendServerKeyExchange => AfterStatus(o)
    case SendServerHelloDone => AfterServerKey(o)
    case ReadClientCertificate => AfterHelloDone(o)
    case VerifyClientCertificate => AfterClientCertificate(o)
    case ReadClientKeyExchange => AfterClientCertificate(o)
    case ReadClientCertificateVerify => AfterClientKey(o)
    case ReadChangeCipherSpec => BeforeChange(resumed, o)
    case ProcessChangeCipherSpec => BeforeChange(resumed, o)
    case ReadNextProto => Changed(BeforeChange(resumed, o), false)
    case ReadChannelId => Optional(Changed(BeforeChange(resumed, o), false), o.nextProto, false, NEXT_PROTO)
    case ReadClientFinished => Extras(Changed(BeforeChange(resumed, o), false), o)
    case SendServerFinished => if resumed then AfterServerHello() else ClientFinish(AfterVerify(o), o)
    case FinishServerHandshake => if resumed then ResumedFlow(o) else FullFlow(o)
    case Done => if resumed then ResumedFlow(o) else FullFlow(o)
  }

  function BeforeChange(resumed: bool, o: Options): Flow
  {
    if resumed then ServerFinish(AfterServerHello(), o) else AfterVerify(o)
  }

  /** What is said on leaving a state. */
  function Leaves(f: Flow, s: State, o: Options): Flow
  {
    match s
    case SelectParameters => Said(f, false, CLIENT_HELLO)
    case SendServerHello => Said(f, true, SERVER_HELLO)
    case SendServerCertificate =>
      Optional(Optional(f, o.certificate, true, CERTIFICATE), o.status, true, CERTIFICATE_STATUS)
    case SendServerKeyExchange => Optional(f, o.keyExchange, true, SERVER_KEY_EXCHANGE)
    case SendServerHelloDone => Said(Optional(f, o.certRequest, true, CERTIFICATE_REQUEST), true, SERVER_HELLO_DONE)
    case ReadClientCertificate => Optional(f, o.certRequest, false, CERTIFICATE)
    case ReadClientKeyExchange => Said(f, false, CLIENT_KEY_EXCHANGE)
    case ReadClientCertificateVerify => Optional(f, o.certRequest && o.clientCert, false, CERTIFICATE_VERIFY)
    case ProcessChangeCipherSpec => Changed(f, false)
    case ReadNextProto => Optional(f, o.nextProto, false, NEXT_PROTO)
    case ReadChannelId => Optional(f, o.channelId, false, CHANNEL_ID)
    case ReadClientFinished => Said(f, false, FINISHED)
    case SendServerFinished => ServerFinish(f, o)
    case _ => f
  }

  /** The state machine's edges. */
  predicate Edge(s: State, next: State, resumed: bool)
  {
    match s
    case StartAccept => next == ReadClientHello
    case ReadClientHello => next == SelectCertificate
    case SelectCertificate => next == SelectParameters
    case SelectParameters => next == SendServerHello
    case SendServerHello => next == if resumed then SendServerFinished else SendServerCertificate
    case SendServerCertificate => next == SendServerKeyExchange
    case SendServerKeyExchange => next == SendServerHelloDone
    case SendServerHelloDone => next == ReadClientCertificate
    case ReadClientCertificate => next == VerifyClientCertificate
    case VerifyClientCertificate => next == ReadClientKeyExchange
    case ReadClientKeyExchange => next == ReadClientCertificateVerify
    case ReadClientCertificateVerify => next == ReadChangeCipherSpec
    case ReadChangeCipherSpec => next == ProcessChangeCipherSpec
    case ProcessChangeCipherSpec => next == ReadNextProto
    case ReadNextProto => next == ReadChannelId
    case ReadChannelId => next == ReadClientFinished
    case ReadClientFinished => next == if resumed then FinishServerHandshake else SendServerFinished
    case SendServerFinished => next == if resumed then ReadChangeCipherSpec else FinishServerHandshake
    case FinishServerHandshake => next == Done
    case Done => false
  }

  /** Leaving a state settles at most the options that belong to it. */
  predicate Settled(s: State, a: Options, b: Options)
  {
    || BeforeParameters(s) || s.SendServerHello?
    || (&& a.certRequest == b.certRequest && a.nextProto == b.nextProto && a.channelId == b.channelId
        && a.ticket == b.ticket
        && a.certificate == b.certificate && a.status == b.status
        && (a.keyExchange == b.keyExchange || s.SendServerCertificate?)
        && (a.clientCert == b.clientCert || s.ReadClientCertificate?))
  }

  /** State by state, the server goes through the flows of the two RFCs. */
  lemma FlowMoves(s: State, next: State, was: bool, resumed: bool, a: Options, b: Options)
    requires Edge(s, next, resumed) && Settled(s, a, b) && (BeforeParameters(s) || was == resumed)
    requires 8 <= RankOf(s, was) < 15 ==> !was
    requires !b.certRequest ==> !b.clientCert
    ensures FlowIn(next, resumed, b) == Leaves(FlowIn(s, was, a), s, b)
    ensures RankOf(next, resumed) < RankOf(s, was)
  {
    if RankOf(s, was) < 8 {
      assert a == b;
      if resumed { ResumedMoves(s, next, a); } else { LateMoves(s, next, a); }
    } else if RankOf(s, was) < 15 {
      FullMoves(s, next, a, b);
    } else {
      HelloMoves(s, next, was, resumed, a, b);
    }
  }

  lemma HelloMoves(s: State, next: State, was: bool, resumed: bool, a: Options, b: Options)
    requires Edge(s, next, resumed) && 15 <= RankOf(s, was) && (BeforeParameters(s) || was == resumed)
    ensures FlowIn(next, resumed, b) == Leaves(FlowIn(s, was, a), s, b) && RankOf(next, resumed) < RankOf(s, was)
  {
    hide AfterStatus, AfterServerKey, AfterHelloDone, AfterClientCertificate, AfterClientKey, AfterVerify, ServerFinish,
         ClientFinish, Extras, BeforeChange, FullFlow, ResumedFlow;
  }

  lemma FullMoves(s: State, next: State, a: Options, b: Options)
    requires Edge(s, next, false) && Settled(s, a, b) && 8 <= RankOf(s, false) < 15
    ensures FlowIn(next, false, b) == Leaves(FlowIn(s, false, a), s, b) && RankOf(next, false) < RankOf(s, false)
  {
    hide FlowIn, Leaves;
    if RankOf(s, false) > 12 {
      CertificateMoves(s, next, a, b);
    } else if RankOf(s, false) > 10 {
      RequestMoves(s, next, a, b);
    } else {
      assert a == b;
      ClientMoves(s, next, a);
    }
  }

  lemma CertificateMoves(s: State, next: State, a: Options, b: Options)
    requires Edge(s, next, false) && Settled(s, a, b) && 12 < RankOf(s, false) < 15
    ensures FlowIn(next, false, b) == Leaves(FlowIn(s, false, a), s, b) && RankOf(next, false) < RankOf(s, false)
  {
    hide AfterServerHello, AfterHelloDone, AfterClientCertificate, AfterVerify, ServerFinish, ClientFinish, Extras,
         BeforeChange;
    assert AfterStatus(a) == AfterStatus(b);
  }

  lemma RequestMoves(s: State, next: State, a: Options, b: Options)
    requires Edge(s, next, false) && Settled(s, a, b) && 10 < RankOf(s, false) < 13
    ensures FlowIn(next, false, b) == Leaves(FlowIn(s, false, a), s, b) && RankOf(next, false) < RankOf(s, false)
  {
    hide FlowIn, Leaves;
    if s == ReadClientCertificate {
      CertificateFlow(a, b);
    } else {
      assert a == b;
      RequestFlow(a);
    }
  }

  lemma RequestFlow(o: Options)
    ensures FlowIn(ReadClientCertificate, false, o) ==
            Leaves(FlowIn(SendServerHelloDone, false, o), SendServerHelloDone, o)
  {
    hide AfterClientHello, AfterServerHello, AfterStatus, AfterServerKey, AfterClientCertificate, AfterClientKey,
         AfterVerify, ServerFinish, ClientFinish, Extras, BeforeChange, FullFlow, ResumedFlow, Optional;
  }

  lemma CertificateFlow(a: Options, b: Options)
    requires Settled(ReadClientCertificate, a, b)
    ensures FlowIn(VerifyClientCertificate, false, b) ==
            Leaves(FlowIn(ReadClientCertificate, false, a), ReadClientCertificate, b)
  {
    hide AfterClientHello, AfterServerHello, AfterStatus, AfterServerKey, AfterHelloDone, AfterClientKey,
         AfterVerify, ServerFinish, ClientFinish, Extras, BeforeChange, FullFlow, ResumedFlow, Optional;
    SameHelloDone(a, b);
  }

  lemma ClientMoves(s: State, next: State, o: Options)
    requires Edge(s, next, false) && 8 <= RankOf(s, false) < 11
    ensures FlowIn(next, false, o) == Leaves(FlowIn(s, false, o), s, o) && RankOf(next, false) < RankOf(s, false)
  {
    hide AfterServerHello, AfterStatus, AfterHelloDone, ServerFinish, ClientFinish, Extras;
  }

  lemma LateMoves(s: State, next: State, o: Options)
    requires Edge(s, next, false) && RankOf(s, false) < 8
    ensures FlowIn(next, false, o) == Leaves(FlowIn(s, false, o), s, o) && RankOf(next, false) < RankOf(s, false)
  {
    if RankOf(s, false) < 4 { FinishMoves(s, next, o); }
  }

  lemma FinishMoves(s: State, next: State, o: Options)
    requires Edge(s, next, false) && RankOf(s, false) < 4
    ensures FlowIn(next, false, o) == Leaves(FlowIn(s, false, o), s, o) && RankOf(next, false) < RankOf(s, false)
  {
    var f := AfterVerify(o);
    match s
    case ReadClientFinished => assert FlowIn(next, false, o) == Said(Extras(Changed(f, false), o), false, FINISHED);
    case SendServerFinished => assert FlowIn(next, false, o) == ServerFinish(ClientFinish(f, o), o);
    case FinishServerHandshake =>
  }

  lemma ResumedMoves(s: State, next: State, o: Options)
    requires Edge(s, next, true) && RankOf(s, true) < 8
    ensures FlowIn(next, true, o) == Leaves(FlowIn(s, true, o), s, o) && RankOf(next, true) < RankOf(s, true)
  {
    hide AfterServerHello, AfterStatus, AfterServerKey, AfterHelloDone, AfterClientCertificate, AfterClientKey,
         AfterVerify, FullFlow;
    match s
    case SendServerFinished =>
    case ReadChangeCipherSpec =>
    case ProcessChangeCipherSpec =>
    case ReadNextProto =>
    case ReadChannelId =>
    case ReadClientFinished =>
    case FinishServerHandshake =>
    case _ =>
  }

  /** What a ClientHello says: version and compression in order, extensions in order, and which. */
  datatype Hello = Hello(ok: bool, extensionsOk: bool, status: bool, nextProto: bool, channelId: bool)

  /** What looking for a session to resume comes to; a session or a ticket callback may have to be asked again. */
  datatype Lookup = Pending(ticket: bool) | Refused | Found(resumed: bool)

  /** What else decides the parameters: a ticket is to be sent, a client certificate is wanted. */
  datatype Choice = Choice(lookup: Lookup, cipher: Option<bool>, ticket: bool, verify: bool, agreed: bool)

  class Server {
    const peer: Peer
    const isDtls: bool
    // a client that is asked for a certificate has to present one
    const needsCertificate: bool
    // `SSL_HANDSHAKE`, the session if it is resumed, and whether the client's certificate is there
    var state: State
    var session: bool
    var usesCertificate: bool
    var statusExpected: bool
    var serverParams: bool
    var certRequest: bool
    var peerCertificate: bool
    var ticketExpected: bool
    var nextProto: bool
    var channelId: bool
    // a ServerKeyExchange is sent; the client's certificate, and its possession, have been verified
    ghost var keyExchange: bool
    ghost var verified: bool
    ghost var proved: bool

    ghost function Rank(): nat
      reads `state, `session
    {
      RankOf(state, session)
    }

    ghost function Opts(): Options
      reads `usesCertificate, `statusExpected, `keyExchange, `certRequest, `peerCertificate, `nextProto,
            `channelId, `ticketExpected
    {
      Options(usesCertificate, usesCertificate && statusExpected, keyExchange, certRequest, peerCertificate,
              nextProto, channelId, ticketExpected)
    }

    /** The raw buffer is kept as long as a CertificateVerify may still have to be verified. */
    ghost predicate KeepsBuffer()
      reads this
    {
      var rank := Rank();
      if rank >= 16 then true
      else if rank >= 11 then certRequest
      else rank >= 8 && certRequest && peerCertificate
    }

    /** What the peer has to be ready for; until it is hashed, the ClientHello stays the current message. */
    ghost predicate Staged()
      reads this, peer, peer.transcript
    {
      var p := peer.Progress();
      && (p.buffer <==> KeepsBuffer()) && (p.hash <==> Rank() < 16) && !p.pending
      && (p.maySend <==> SendsIn(state, session))
      && (p.writeCipher <==> WriteCipherIn(state, session)) && (p.readCipher <==> ReadCipherIn(state, session))
      && (state in {SelectCertificate, SelectParameters} ==> peer.inbox != [] && peer.inbox[0].kind == CLIENT_HELLO)
    }

    /** What the parameters and the messages that came have to do with each other. */
    ghost predicate Negotiated()
      reads this
    {
      var rank := Rank();
      && (rank >= 16 ==> !certRequest)
      && (8 <= rank < 15 ==> !session)
      && (rank < 16 && certRequest ==> usesCertificate && !session)
      && (rank == 13 ==> (serverParams <==> keyExchange))
      && (rank > 10 ==> !peerCertificate)
      && (peerCertificate ==> certRequest)
      && (rank <= 10 && certRequest && needsCertificate ==> peerCertificate)
      && (rank < 10 && peerCertificate ==> verified)
      && (rank < 8 && peerCertificate ==> proved)
    }

    ghost predicate Valid()
      reads this, peer, peer.transcript
    {
      peer.Valid() && peer.isServer && Staged() && Negotiated()
    }

    /** What has been said is what the state requires. */
    ghost predicate OnCourse()
      reads this, peer`flow
    {
      peer.flow == FlowIn(state, session, Opts())
    }

    /** Nothing has been said or changed: the next call of the same state starts afresh. */
    twostate predicate Still()
      reads this, peer`flow, peer`log, peer`inbox
    {
      unchanged(this) && peer.flow == old(peer.flow) && peer.log == old(peer.log) && peer.inbox == old(peer.inbox)
    }

    constructor (mac: (Octets, bool) -> Octets, frame: (Byte, Octets) -> Octets, isDtls: bool, needsCertificate: bool)
      ensures Ready(HsOk) && state == StartAccept && this.isDtls == isDtls && this.needsCertificate == needsCertificate
      ensures fresh(peer) && fresh(peer.transcript) && peer.inbox == [] && !peer.ccsSeen && peer.mac == mac
    {
      peer := new Peer(true, mac, frame);
      this.isDtls, this.needsCertificate, state, session := isDtls, needsCertificate, StartAccept, false;
      usesCertificate, statusExpected, serverParams, certRequest := false, false, false, false;
      peerCertificate, ticketExpected, nextProto, channelId := false, false, false, false;
      keyExchange, verified, proved := false, false, false;
    }

    // ---- the ClientHello ----

    method DoStartAccept() returns (r: Wait)
      requires Valid() && state == StartAccept
      modifies this`state
      ensures Valid() && r == HsOk && state == ReadClientHello
      ensures Left()
    {
      state := ReadClientHello;
      return HsOk;
    }

    /** The ClientHello is looked at, not hashed: the early callback may want to be asked again. */
    method DoReadClientHello(hello: Hello, selected: Answer) returns (r: Wait)
      requires Valid() && state == ReadClientHello
      modifies this`state, this`statusExpected, this`nextProto, this`channelId
      ensures r == if peer.inbox == [] then HsReadMessage
                   else if peer.inbox[0].kind != CLIENT_HELLO || !hello.ok then HsError
                   else if selected == Retry then HsCertificateSelectionPending
                   else if selected == Yes && hello.extensionsOk then HsOk else HsError
      ensures r != HsError ==> Valid()
      ensures r == HsReadMessage || r == HsCertificateSelectionPending ==> Still()
      ensures r == HsOk ==>
        && state == SelectCertificate
        && statusExpected == hello.status && nextProto == hello.nextProto && channelId == hello.channelId
      ensures r == HsOk ==> Left()
    {
      if peer.inbox == [] {
        return HsReadMessage;
      }
      if peer.inbox[0].kind != CLIENT_HELLO || !hello.ok {
        return HsError;
      }
      if selected == Retry { return HsCertificateSelectionPending; }
      if selected == No || !hello.extensionsOk { return HsError; }
      statusExpected, nextProto, channelId := hello.status, hello.nextProto, hello.channelId;
      state := SelectCertificate;
      return HsOk;
    }

    /** The certificate callback first, then the cipher, if there is a shared one. */
    method DoSelectCertificate(answer: Answer, cipher: Option<bool>) returns (r: Wait)
      requires Valid() && state == SelectCertificate
      modifies this`state, this`usesCertificate
      ensures r == if answer == Retry then HsX509Lookup else if answer == Yes && cipher.Some? then HsOk else HsError
      ensures r != HsError ==> Valid()
      ensures r == HsX509Lookup ==> Still()
      ensures r == HsOk ==> state == SelectParameters && usesCertificate == cipher.value
      ensures r == HsOk ==> Left()
    {
      if answer == No { return HsError; }
      if answer == Retry { return HsX509Lookup; }
      if cipher.None? { return HsError; }
      usesCertificate := cipher.value;
      state := SelectParameters;
      return HsOk;
    }

    /**
    Resumption is decided, and only when all parameters are known is the ClientHello hashed: a session or
    ticket callback that is asked again finds everything as it was.
    */
    method DoSelectParameters(lookup: Lookup, ticket: bool, verify: bool, agreed: bool) returns (r: Wait)
      requires Valid() && state == SelectParameters
      modifies this`state, this`session, this`ticketExpected, this`certRequest, peer`inbox, peer`log, peer`flow,
               peer`pending, peer.transcript
      ensures r == match lookup
                   case Pending(wait) => if wait then HsPendingTicket else HsPendingSession
                   case Refused => HsError
                   case Found(_) => if agreed then HsOk else HsError
      ensures r != HsError ==> Valid()
      ensures lookup.Pending? ==> Still()
      ensures r == HsOk ==>
        && state == SendServerHello && peer.flow == Said(old(peer.flow), false, CLIENT_HELLO)
        && session == lookup.resumed && ticketExpected == ticket
        && certRequest == (!session && verify && usesCertificate)
      ensures r == HsOk ==> Left()
    {
      hide Peer.Valid, Peer.Progress, RawOf, FlowOf, FlowIn, RankOf, Server.KeepsBuffer, Server.Negotiated,
           Server.Staged;
      if lookup.Pending? { return if lookup.ticket then HsPendingTicket else HsPendingSession; }
      if lookup.Refused? || !agreed { return HsError; }
      AtParameters();
      session, ticketExpected := lookup.resumed, ticket;
      certRequest := !session && verify && usesCertificate;
      HashClientHello();
      EnterServerHello();
      return HsOk;
    }

    lemma AtParameters()
      requires Valid() && state == SelectParameters
      ensures peer.inbox != [] && peer.inbox[0].kind == CLIENT_HELLO && !peerCertificate
      ensures peer.Progress() == Stage(true, false, false, false, false, false)
    {
    }

    method EnterServerHello()
      requires state == SelectParameters && !peerCertificate && (certRequest ==> usesCertificate && !session)
      requires peer.Progress() == Stage(certRequest, true, true, false, false, false)
      modifies this`state
      ensures state == SendServerHello && Negotiated() && Staged()
    {
      hide Peer.Valid, Peer.Progress, RawOf, FlowOf, FlowIn;
      state := SendServerHello;
    }

    /** The buffer is kept only if a client certificate is asked for. */
    method HashClientHello()
      requires peer.Valid() && peer.isServer && peer.Progress() == Stage(true, false, false, false, false, false)
      requires peer.inbox != [] && peer.inbox[0].kind == CLIENT_HELLO
      modifies peer`inbox, peer`log, peer`flow, peer`pending, peer.transcript
      ensures peer.Valid() && peer.flow == Said(old(peer.flow), false, CLIENT_HELLO)
      ensures peer.Progress() == Stage(certRequest, true, true, false, false, false)
    {
      peer.InitHash();
      peer.Hash();
      if !certRequest {
        peer.FreeBuffer();
      }
      peer.Next();
    }

    // ---- the server's flight ----

    method DoSendServerHello(ok: bool, channelIdAllowed: bool, body: Octets) returns (r: Wait)
      requires Valid() && state == SendServerHello
      modifies this`state, this`channelId, peer`outbox, peer`log, peer`flow, peer.transcript
      ensures r == if ok then HsOk else HsError
      ensures ok ==>
        && Valid() && state == (if session then SendServerFinished else SendServerCertificate)
        && peer.flow == Said(old(peer.flow), true, SERVER_HELLO) && channelId == (old(channelId) && channelIdAllowed)
      ensures r == HsOk ==> Left()
    {
      hide Peer.Valid, Peer.Progress, RawOf, FlowOf, FlowIn;
      if !ok { return HsError; }
      peer.Send(SERVER_HELLO, body);
      channelId := channelId && channelIdAllowed;
      state := if session then SendServerFinished else SendServerCertificate;
      return HsOk;
    }

    /** The parameters of a ServerKeyExchange are drawn up once, and kept while it is being signed. */
    method DoSendServerCertificate(ok: bool, params: bool, body: Octets, statusBody: Octets) returns (r: Wait)
      requires Valid() && state == SendServerCertificate
      modifies this`state, this`serverParams, this`keyExchange, peer`outbox, peer`log, peer`flow, peer.transcript
      ensures r == if ok then HsOk else HsError
      ensures ok ==>
        && Valid() && state == SendServerKeyExchange && keyExchange == params
        && peer.flow == Optional(Optional(old(peer.flow), usesCertificate, true, CERTIFICATE),
                                 usesCertificate && statusExpected, true, CERTIFICATE_STATUS)
      ensures r == HsOk ==> Left()
    {
      hide Peer.Valid, Peer.Progress, RawOf, FlowOf, FlowIn;
      if !ok { return HsError; }
      if usesCertificate { SendCertificate(body, statusBody); }
      serverParams, keyExchange := params, params;
      state := SendServerKeyExchange;
      return HsOk;
    }

    method SendCertificate(body: Octets, statusBody: Octets)
      requires peer.Valid() && peer.isServer && peer.Progress().maySend
      modifies peer`outbox, peer`log, peer`flow, peer.transcript
      ensures peer.Valid() && peer.Progress() == old(peer.Progress())
      ensures peer.flow ==
              Optional(Said(old(peer.flow), true, CERTIFICATE), statusExpected, true, CERTIFICATE_STATUS)
    {
      hide Peer.Valid, RawOf, FlowOf;
      peer.Send(CERTIFICATE, body);
      if statusExpected {
        peer.Send(CERTIFICATE_STATUS, statusBody);
      }
    }

    method DoSendServerKeyExchange(signed: Answer, body: Octets) returns (r: Wait)
      requires Valid() && state == SendServerKeyExchange
      modifies this`state, this`serverParams, peer`outbox, peer`log, peer`flow, peer.transcript
      ensures r == if !keyExchange || !usesCertificate || signed == Yes then HsOk
                   else if signed == No then HsError else HsPrivateKeyOperation
      ensures r != HsError ==> Valid()
      ensures r == HsPrivateKeyOperation ==> Still()
      ensures r == HsOk ==>
        state == SendServerHelloDone && peer.flow == Optional(old(peer.flow), keyExchange, true, SERVER_KEY_EXCHANGE)
      ensures r == HsOk ==> Left()
    {
      hide Peer.Valid, Peer.Progress, RawOf, FlowOf, FlowIn;
      if serverParams {
        if usesCertificate && signed == No { return HsError; }
        if usesCertificate && signed == Retry { return HsPrivateKeyOperation; }
        peer.Send(SERVER_KEY_EXCHANGE, body);
        serverParams := false;
      }
      state := SendServerHelloDone;
      return HsOk;
    }

    method DoSendServerHelloDone(body: Octets) returns (r: Wait)
      requires Valid() && state == SendServerHelloDone
      modifies this`state, peer`outbox, peer`log, peer`flow, peer.transcript
      ensures Valid() && r == HsFlush && state == ReadClientCertificate
      ensures peer.flow ==
              Said(Optional(old(peer.flow), certRequest, true, CERTIFICATE_REQUEST), true, SERVER_HELLO_DONE)
      ensures Left()
    {
      hide Peer.Valid, Peer.Progress, RawOf, FlowOf, FlowIn;
      SendHelloDone(body);
      state := ReadClientCertificate;
      return HsFlush;
    }

    method SendHelloDone(body: Octets)
      requires peer.Valid() && peer.isServer && peer.Progress().maySend
      modifies peer`outbox, peer`log, peer`flow, peer.transcript
      ensures peer.Valid() && peer.Progress() == old(peer.Progress()).(maySend := false)
      ensures peer.flow ==
              Said(Optional(old(peer.flow), certRequest, true, CERTIFICATE_REQUEST), true, SERVER_HELLO_DONE)
    {
      hide Peer.Valid, RawOf, FlowOf;
      if certRequest {
        peer.Send(CERTIFICATE_REQUEST, body);
      }
      peer.Send(SERVER_HELLO_DONE, []);
    }

    // ---- the client's flight ----

    /** A client without a certificate sends an empty one, if that is allowed. */
    method DoReadClientCertificate(parsed: bool, some: bool) returns (r: Wait)
      requires Valid() && state == ReadClientCertificate
      modifies this`state, this`peerCertificate, peer`inbox, peer`log, peer`flow, peer`pending, peer.transcript
      ensures r == if !certRequest then HsOk
                   else if old(peer.inbox) == [] then HsReadMessage
                   else if old(peer.inbox)[0].kind == CERTIFICATE && parsed && (some || !needsCertificate) then HsOk
                   else HsError
      ensures r != HsError ==> Valid()
      ensures r == HsReadMessage ==> Still()
      ensures r == HsOk ==>
        && state == VerifyClientCertificate && peer.flow == Optional(old(peer.flow), certRequest, false, CERTIFICATE)
        && peerCertificate == (certRequest && some)
      ensures r == HsOk ==> Left()
    {
      hide Peer.Valid, Peer.Progress, RawOf, FlowOf, FlowIn;
      if certRequest {
        r := peer.Take(CERTIFICATE, parsed);
        if r != HsOk { return; }
        if !some {
          peer.FreeBuffer();
          if needsCertificate { return HsError; }
        }
        peerCertificate := some;
      }
      state := VerifyClientCertificate;
      return HsOk;
    }

    /** `ssl_verify_peer_cert`, asked again until it has an answer. */
    method DoVerifyClientCertificate(answer: Answer) returns (r: Wait)
      requires Valid() && state == VerifyClientCertificate
      modifies this`state, this`verified
      ensures r == if !peerCertificate || answer == Yes then HsOk
                   else if answer == No then HsError else HsCertificateVerify
      ensures r != HsError ==> Valid()
      ensures r == HsCertificateVerify ==> Still()
      ensures r == HsOk ==> state == ReadClientKeyExchange && (verified <==> peerCertificate && answer == Yes)
      ensures r == HsOk ==> Left()
    {
      if peerCertificate {
        if answer == No { return HsError; }
        if answer == Retry { return HsCertificateVerify; }
      }
      verified := peerCertificate;
      state := ReadClientKeyExchange;
      return HsOk;
    }

    /** The message is hashed once the private key has been used, however often that had to be asked for. */
    method DoReadClientKeyExchange(decrypted: Answer, ok: bool) returns (r: Wait)
      requires Valid() && state == ReadClientKeyExchange
      modifies this`state, peer`inbox, peer`log, peer`flow, peer`pending, peer.transcript
      ensures r == if old(peer.inbox) == [] then HsReadMessage
                   else if old(peer.inbox)[0].kind != CLIENT_KEY_EXCHANGE || decrypted == No then HsError
                   else if decrypted == Retry then HsPrivateKeyOperation
                   else if ok then HsOk else HsError
      ensures r != HsError ==> Valid()
      ensures r == HsReadMessage || r == HsPrivateKeyOperation ==> Still()
      ensures r == HsOk ==>
        state == ReadClientCertificateVerify && peer.flow == Said(old(peer.flow), false, CLIENT_KEY_EXCHANGE)
      ensures r == HsOk ==> Left()
    {
      hide Peer.Valid, Peer.Progress, RawOf, FlowOf, FlowIn;
      if peer.inbox == [] {
        return HsReadMessage;
      }
      if peer.inbox[0].kind != CLIENT_KEY_EXCHANGE || decrypted == No {
        return HsError;
      }
      if decrypted == Retry { return HsPrivateKeyOperation; }
      r := peer.Take(CLIENT_KEY_EXCHANGE, ok);
      if r == HsOk { state := ReadClientCertificateVerify; }
    }

    /** The signature is checked against the raw transcript before it, and only then is it hashed itself. */
    method DoReadClientCertificateVerify(check: (Octets, Octets) -> bool) returns (r: Wait)
      requires Valid() && state == ReadClientCertificateVerify
      modifies this`state, this`proved, peer`inbox, peer`log, peer`flow, peer`pending, peer.transcript
      ensures r == if !peerCertificate then HsOk
                   else if old(peer.inbox) == [] then HsReadMessage
                   else if && old(peer.inbox)[0].kind == CERTIFICATE_VERIFY
                           && check(RawOf(old(peer.log)), old(peer.inbox)[0].body)
                   then HsOk else HsError
      ensures r != HsError ==> Valid()
      ensures r == HsReadMessage ==> Still()
      ensures r == HsOk ==>
        && state == ReadChangeCipherSpec && (peerCertificate ==> proved)
        && peer.flow == Optional(old(peer.flow), certRequest && peerCertificate, false, CERTIFICATE_VERIFY)
      ensures r == HsOk ==> Left()
    {
      hide Peer.Valid, Peer.Progress, RawOf, FlowOf, FlowIn;
      if peerCertificate {
        if peer.inbox == [] {
          return HsReadMessage;
        }
        var data := peer.SignedTranscript();
        if peer.inbox[0].kind != CERTIFICATE_VERIFY || !check(data, peer.inbox[0].body) {
          return HsError;
        }
        HashVerify();
        proved := true;
      } else {
        peer.FreeBuffer();
      }
      state := ReadChangeCipherSpec;
      return HsOk;
    }

    /** The buffer is no longer necessary, and the CertificateVerify may be hashed. */
    method HashVerify()
      requires peer.Valid() && peer.isServer && peer.Progress() == Stage(true, true, false, false, false, false)
      requires peer.inbox != [] && peer.inbox[0].kind == CERTIFICATE_VERIFY
      modifies peer`inbox, peer`log, peer`flow, peer`pending, peer.transcript
      ensures peer.Valid() && peer.flow == Said(old(peer.flow), false, CERTIFICATE_VERIFY)
      ensures peer.Progress() == Stage(false, true, false, false, false, false)
    {
      peer.FreeBuffer();
      peer.Hash();
      peer.Next();
    }

    // ---- the client's Finished ----

    method DoReadChangeCipherSpec() returns (r: Wait)
      requires Valid() && state == ReadChangeCipherSpec
      modifies this`state
      ensures Valid() && r == HsReadChangeCipherSpec && state == ProcessChangeCipherSpec
      ensures Left()
    {
      state := ProcessChangeCipherSpec;
      return HsReadChangeCipherSpec;
    }

    method DoProcessChangeCipherSpec(keys: bool) returns (r: Wait)
      requires Valid() && state == ProcessChangeCipherSpec && peer.ccsSeen
      modifies this`state, peer`log, peer`flow, peer`readCipher
      ensures r == if keys then HsOk else HsError
      ensures keys ==> Valid() && state == ReadNextProto && peer.flow == Changed(old(peer.flow), false)
      ensures r == HsOk ==> Left()
    {
      hide Peer.Valid, Peer.Progress, RawOf, FlowOf, FlowIn;
      if !keys { return HsError; }
      peer.ChangeReadCipher();
      state := ReadNextProto;
      return HsOk;
    }

    method DoReadNextProto(parsed: bool) returns (r: Wait)
      requires Valid() && state == ReadNextProto
      modifies this`state, peer`inbox, peer`log, peer`flow, peer`pending, peer.transcript
      ensures r == if !nextProto then HsOk
                   else if old(peer.inbox) == [] then HsReadMessage
                   else if old(peer.inbox)[0].kind == NEXT_PROTO && parsed then HsOk else HsError
      ensures r != HsError ==> Valid()
      ensures r == HsReadMessage ==> Still()
      ensures r == HsOk ==>
        state == ReadChannelId && peer.flow == Optional(old(peer.flow), nextProto, false, NEXT_PROTO)
      ensures r == HsOk ==> Left()
    {
      hide Peer.Valid, Peer.Progress, RawOf, FlowOf, FlowIn;
      if nextProto {
        r := peer.Take(NEXT_PROTO, parsed);
        if r != HsOk { return; }
      }
      state := ReadChannelId;
      return HsOk;
    }

    method DoReadChannelId(verified: bool) returns (r: Wait)
      requires Valid() && state == ReadChannelId
      modifies this`state, peer`inbox, peer`log, peer`flow, peer`pending, peer.transcript
      ensures r == if !channelId then HsOk
                   else if old(peer.inbox) == [] then HsReadMessage
                   else if old(peer.inbox)[0].kind == CHANNEL_ID && verified then HsOk else HsError
      ensures r != HsError ==> Valid()
      ensures r == HsReadMessage ==> Still()
      ensures r == HsOk ==>
        state == ReadClientFinished && peer.flow == Optional(old(peer.flow), channelId, false, CHANNEL_ID)
      ensures r == HsOk ==> Left()
    {
      hide Peer.Valid, Peer.Progress, RawOf, FlowOf, FlowIn;
      if channelId {
        r := peer.Take(CHANNEL_ID, verified);
        if r != HsOk { return; }
      }
      state := ReadClientFinished;
      return HsOk;
    }

    /** Anything but the client's MAC over the transcript so far is an error. */
    method DoReadClientFinished(hashes: bool) returns (r: Wait)
      requires Valid() && state == ReadClientFinished
      modifies this`state, peer`inbox, peer`log, peer`flow, peer`pending, peer.transcript
      ensures r == if old(peer.inbox) == [] then HsReadMessage
                   else if && old(peer.inbox)[0].kind == FINISHED
                           && old(peer.inbox)[0].body == peer.mac(RawOf(old(peer.log)), false)
                           && (session || !channelId || hashes)
                   then HsOk else HsError
      ensures r != HsError ==> Valid()
      ensures r == HsReadMessage ==> Still()
      ensures r == HsOk ==>
        && state == (if session then FinishServerHandshake else SendServerFinished)
        && peer.flow == Said(old(peer.flow), false, FINISHED)
      ensures r == HsOk ==> Left()
    {
      hide Peer.Valid, Peer.Progress, RawOf, FlowOf, FlowIn, Optional, Extras, ServerFinish, RankOf,
           Server.Staged, Server.Negotiated, Server.KeepsBuffer;
      AtClientFinished();
      r := peer.GetFinished();
      if r == HsReadMessage { Undisturbed(); }
      if r == HsOk {
        if !session && channelId && !hashes { return HsError; }
        LeaveFinished();
      }
    }

    lemma AtClientFinished()
      requires Valid() && state == ReadClientFinished
      ensures peer.Progress() == Stage(false, true, false, false, session, true)
    {
    }

    /** The last message of a resumed handshake, or the last of the client's in a full one. */
    method LeaveFinished()
      requires state == ReadClientFinished && Negotiated()
      requires peer.Progress() == Stage(false, true, true, false, session, true)
      modifies this`state
      ensures state == (if session then FinishServerHandshake else SendServerFinished) && Negotiated() && Staged()
    {
      hide Peer.Progress;
      state := if session then FinishServerHandshake else SendServerFinished;
    }

    // ---- the server's Finished ----

    method DoSendServerFinished(encrypted: bool, ticketBody: Octets) returns (r: Wait)
      requires Valid() && state == SendServerFinished
      modifies this`state, peer`outbox, peer`log, peer`flow, peer`writeCipher, peer.transcript
      ensures r == if ticketExpected && !encrypted then HsError else HsFlush
      ensures r == HsFlush ==>
        && Valid() && state == (if session then ReadChangeCipherSpec else FinishServerHandshake)
        && peer.flow == ServerFinish(old(peer.flow), Opts())
      ensures r == HsFlush ==> Left()
    {
      hide Peer.Valid, Peer.Progress, RawOf, FlowOf, ServerFinish;
      if ticketExpected && !encrypted { return HsError; }
      SendFinish(ticketBody);
      state := if session then ReadChangeCipherSpec else FinishServerHandshake;
      return HsFlush;
    }

    method SendFinish(ticketBody: Octets)
      requires peer.Valid() && peer.isServer
      requires var p := peer.Progress(); p.maySend && p.hash && !p.buffer
      modifies peer`outbox, peer`log, peer`flow, peer`writeCipher, peer.transcript
      ensures peer.Valid() && peer.Progress() == old(peer.Progress()).(maySend := false, writeCipher := true)
      ensures peer.flow == ServerFinish(old(peer.flow), Opts())
    {
      if ticketExpected {
        peer.Send(NEW_SESSION_TICKET, ticketBody);
      }
      peer.ChangeWriteCipher();
      peer.SendFinished();
    }

    method DoFinishServerHandshake() returns (r: Wait)
      requires Valid() && state == FinishServerHandshake
      modifies this`state
      ensures Valid() && r == HsOk && state == Done
      ensures Left()
    {
      state := Done;
      return HsOk;
    }

    // ---- the state machine ----

    /** What a state may wait for. */
    predicate Asks(r: Wait)
      reads `state
    {
      match r
      case HsFlush => state in {ReadClientCertificate, ReadChangeCipherSpec, FinishServerHandshake}
      case HsReadMessage =>
        state in {ReadClientHello, ReadClientCertificate, ReadClientKeyExchange, ReadClientCertificateVerify,
                  ReadNextProto, ReadChannelId, ReadClientFinished}
      case HsReadChangeCipherSpec => state == ProcessChangeCipherSpec
      case HsCertificateSelectionPending => state == ReadClientHello
      case HsX509Lookup => state == SelectCertificate
      case HsPendingSession | HsPendingTicket => state == SelectParameters
      case HsPrivateKeyOperation => state in {SendServerKeyExchange, ReadClientKeyExchange}
      case HsCertificateVerify => state == VerifyClientCertificate
      case HsOk | HsError => true
      case _ => false
    }

    /** A message that the state has no use for. */
    ghost predicate Unwelcome(m: Msg, check: (Octets, Octets) -> bool)
      reads this, peer
    {
      match state
      case ReadClientHello => m.kind != CLIENT_HELLO
      case ReadClientCertificate => certRequest && m.kind != CERTIFICATE
      case ReadClientKeyExchange => m.kind != CLIENT_KEY_EXCHANGE
      case ReadClientCertificateVerify =>
        peerCertificate && (m.kind != CERTIFICATE_VERIFY || !check(RawOf(peer.log), m.body))
      case ReadNextProto => nextProto && m.kind != NEXT_PROTO
      case ReadChannelId => channelId && m.kind != CHANNEL_ID
      case ReadClientFinished => m.kind != FINISHED || m.body != peer.mac(RawOf(peer.log), false)
      case _ => false
    }

    /** What is outside refused something, or the message that came is not welcome, or an empty certificate. */
    ghost predicate MayFail(w: World, hello: Hello, choice: Choice, check: (Octets, Octets) -> bool)
      reads this, peer
    {
      || !w.ok || w.answer == No || !hello.ok || !hello.extensionsOk
      || choice.lookup.Refused? || choice.cipher.None? || !choice.agreed
      || (peer.inbox != [] && Unwelcome(peer.inbox[0], check))
      || (state == ReadClientCertificate && certRequest && needsCertificate && !w.choice)
    }

    /**
    A step fails, stays where it is, or leaves its state having said what belongs to it. It stays only for want
    of a message or of an answer.
    */
    twostate predicate Stepped(r: Wait)
      reads this, peer, peer.transcript
    {
      && (r != HsError ==>
            && Valid()
            && (r == HsReadChangeCipherSpec <==> state == ProcessChangeCipherSpec)
            && (old(state) == ProcessChangeCipherSpec ==> r == HsOk)
            && (Still() || Left()))
      && Asks(r) && (ForMessage(r) ==> Still() && peer.inbox == [])
      && (r in {HsOk, HsFlush, HsReadChangeCipherSpec} ==> state != old(state))
      && peer.received == old(peer.received)
    }

    twostate predicate Left()
      reads this, peer`flow
    {
      && Edge(old(state), state, session) && Settled(old(state), old(Opts()), Opts())
      && (BeforeParameters(old(state)) || old(session) == session)
      && peer.flow == Leaves(old(peer.flow), old(state), Opts())
    }

    method StepHello(w: World, hello: Hello, choice: Choice, ghost check: (Octets, Octets) -> bool)
      returns (r: Wait)
      requires Valid() && (BeforeParameters(state) || state == SendServerHello)
      modifies this, peer, peer.transcript
      ensures Stepped(r) && (r == HsError ==> old(MayFail(w, hello, choice, check)))
      ensures Pauses(r) ==> w.answer == Retry || choice.lookup.Pending?
    {
      hide Server.Left, Edge, Settled, Leaves, Peer.Valid, Peer.Progress, Server.Staged, Server.Negotiated, RawOf,
           FlowOf, FlowIn, RankOf, Server.KeepsBuffer;
      match state {
        case StartAccept => r := DoStartAccept();
        case ReadClientHello => r := DoReadClientHello(hello, w.answer);
        case SelectCertificate => r := DoSelectCertificate(w.answer, choice.cipher);
        case SelectParameters => r := DoSelectParameters(choice.lookup, choice.ticket, choice.verify, choice.agreed);
        case SendServerHello => r := DoSendServerHello(w.ok, w.choice, w.body);
      }
    }

    method StepServerFlight(w: World, ghost hello: Hello, ghost choice: Choice, ghost check: (Octets, Octets) -> bool)
      returns (r: Wait)
      requires Valid() && state in {SendServerCertificate, SendServerKeyExchange, SendServerHelloDone}
      modifies this, peer, peer.transcript
      ensures Stepped(r) && (r == HsError ==> old(MayFail(w, hello, choice, check)))
      ensures Pauses(r) ==> w.answer == Retry || choice.lookup.Pending?
    {
      hide Server.Left, Edge, Settled, Leaves, Peer.Valid, Peer.Progress, Server.Staged, Server.Negotiated, RawOf,
           FlowOf, FlowIn, RankOf, Server.KeepsBuffer;
      match state {
        case SendServerCertificate => r := DoSendServerCertificate(w.ok, w.choice, w.body, w.more);
        case SendServerKeyExchange => r := DoSendServerKeyExchange(w.answer, w.body);
        case SendServerHelloDone => r := DoSendServerHelloDone(w.body);
      }
    }

    method StepClientCertificate(w: World, ghost hello: Hello, ghost choice: Choice,
                                 ghost check: (Octets, Octets) -> bool) returns (r: Wait)
      requires Valid() && state in {ReadClientCertificate, VerifyClientCertificate}
      modifies this, peer, peer.transcript
      ensures Stepped(r) && (r == HsError ==> old(MayFail(w, hello, choice, check)))
      ensures Pauses(r) ==> w.answer == Retry || choice.lookup.Pending?
    {
      hide Server.Left, Edge, Settled, Leaves, Peer.Valid, Peer.Progress, Server.Staged, Server.Negotiated, RawOf,
           FlowOf, FlowIn, RankOf, Server.KeepsBuffer;
      match state {
        case ReadClientCertificate => r := DoReadClientCertificate(w.ok, w.choice);
        case VerifyClientCertificate => r := DoVerifyClientCertificate(w.answer);
      }
    }

    method StepClientKey(w: World, ghost hello: Hello, ghost choice: Choice, check: (Octets, Octets) -> bool)
      returns (r: Wait)
      requires Valid() && state in {ReadClientKeyExchange, ReadClientCertificateVerify}
      modifies this, peer, peer.transcript
      ensures Stepped(r) && (r == HsError ==> old(MayFail(w, hello, choice, check)))
      ensures Pauses(r) ==> w.answer == Retry || choice.lookup.Pending?
    {
      hide Server.Left, Edge, Settled, Leaves, Peer.Valid, Peer.Progress, Server.Staged, Server.Negotiated, RawOf,
           FlowOf, FlowIn, RankOf, Server.KeepsBuffer;
      match state {
        case ReadClientKeyExchange => r := DoReadClientKeyExchange(w.answer, w.ok);
        case ReadClientCertificateVerify => r := DoReadClientCertificateVerify(check);
      }
    }

    method StepCipherChange(w: World, ghost hello: Hello, ghost choice: Choice, ghost check: (Octets, Octets) -> bool)
      returns (r: Wait)
      requires Valid() && (state == ReadChangeCipherSpec || state == ProcessChangeCipherSpec)
      requires state == ProcessChangeCipherSpec ==> peer.ccsSeen
      modifies this, peer, peer.transcript
      ensures Stepped(r) && (r == HsError ==> old(MayFail(w, hello, choice, check)))
      ensures Pauses(r) ==> w.answer == Retry || choice.lookup.Pending?
    {
      hide Server.Left, Edge, Settled, Leaves, Peer.Valid, Peer.Progress, Server.Staged, Server.Negotiated, RawOf,
           FlowOf, FlowIn, RankOf, Server.KeepsBuffer;
      match state {
        case ReadChangeCipherSpec => r := DoReadChangeCipherSpec();
        case ProcessChangeCipherSpec => r := DoProcessChangeCipherSpec(w.ok);
      }
    }

    method StepClientFinish(w: World, ghost hello: Hello, ghost choice: Choice, ghost check: (Octets, Octets) -> bool)
      returns (r: Wait)
      requires Valid() && state in {ReadNextProto, ReadChannelId, ReadClientFinished}
      modifies this, peer, peer.transcript
      ensures Stepped(r) && (r == HsError ==> old(MayFail(w, hello, choice, check)))
      ensures Pauses(r) ==> w.answer == Retry || choice.lookup.Pending?
    {
      hide Server.Left, Edge, Settled, Leaves, Peer.Valid, Peer.Progress, Server.Staged, Server.Negotiated, RawOf,
           FlowOf, FlowIn, RankOf, Server.KeepsBuffer;
      match state {
        case ReadNextProto => r := DoReadNextProto(w.ok);
        case ReadChannelId => r := DoReadChannelId(w.ok);
        case ReadClientFinished => r := DoReadClientFinished(w.ok);
      }
    }

    method StepServerFinish(w: World, ghost hello: Hello, ghost choice: Choice, ghost check: (Octets, Octets) -> bool)
      returns (r: Wait)
      requires Valid() && (state == SendServerFinished || state == FinishServerHandshake)
      modifies this, peer, peer.transcript
      ensures Stepped(r) && (r == HsError ==> old(MayFail(w, hello, choice, check)))
      ensures Pauses(r) ==> w.answer == Retry || choice.lookup.Pending?
    {
      hide Server.Left, Edge, Settled, Leaves, Peer.Valid, Peer.Progress, Server.Staged, Server.Negotiated, RawOf,
           FlowOf, FlowIn, RankOf, Server.KeepsBuffer;
      match state {
        case SendServerFinished => r := DoSendServerFinished(w.ok, w.body);
        case FinishServerHandshake => r := DoFinishServerHandshake();
      }
    }

    /** The switch of `ssl_server_handshake`. */
    method Step(w: World, hello: Hello, choice: Choice, check: (Octets, Octets) -> bool) returns (r: Wait)
      requires Valid() && state != Done && (state == ProcessChangeCipherSpec ==> peer.ccsSeen)
      modifies this, peer, peer.transcript
      ensures Stepped(r) && (r == HsError ==> old(MayFail(w, hello, choice, check)))
      ensures Pauses(r) ==> w.answer == Retry || choice.lookup.Pending?
    {
      if BeforeParameters(state) || state == SendServerHello {
        r := StepHello(w, hello, choice, check);
      } else if state in {SendServerCertificate, SendServerKeyExchange, SendServerHelloDone} {
        r := StepServerFlight(w, hello, choice, check);
      } else if state in {ReadClientCertificate, VerifyClientCertificate} {
        r := StepClientCertificate(w, hello, choice, check);
      } else if state in {ReadClientKeyExchange, ReadClientCertificateVerify} {
        r := StepClientKey(w, hello, choice, check);
      } else if state == ReadChangeCipherSpec || state == ProcessChangeCipherSpec {
        r := StepCipherChange(w, hello, choice, check);
      } else if state in {ReadNextProto, ReadChannelId, ReadClientFinished} {
        r := StepClientFinish(w, hello, choice, check);
      } else {
        r := StepServerFinish(w, hello, choice, check);
      }
    }

    /** A step keeps the handshake on course and, if it leaves its state, comes nearer to the end. */
    twostate lemma StepKeeps(r: Wait)
      requires old(Valid()) && old(OnCourse()) && Stepped(r) && r != HsError
      ensures OnCourse() && Rank() <= old(Rank()) && (state != old(state) ==> Rank() < old(Rank()))
    {
      if Left() {
        FlowMoves(old(state), state, old(session), session, old(Opts()), Opts());
      }
    }

    /** `ssl_server_handshake`: steps until something has to be waited for, or to the end. */
    method Handshake(check: (Octets, Octets) -> bool) returns (r: Wait)
      requires Valid() && OnCourse() && (state == ProcessChangeCipherSpec ==> peer.ccsSeen)
      modifies this, peer, peer.transcript
      ensures r != HsError ==> Valid() && OnCourse() && Rank() <= old(Rank()) && r != HsEarlyReturn
      ensures r == HsOk ==> state == Done
      ensures r != HsError ==> (r == HsReadChangeCipherSpec <==> state == ProcessChangeCipherSpec)
      ensures r != HsError && old(state) == ProcessChangeCipherSpec ==> Rank() < old(Rank())
      // whatever it waits for is missing
      ensures Asks(r) && (ForMessage(r) ==> peer.inbox == []) && peer.received == old(peer.received)
    {
      hide Peer.Valid, Peer.Progress, RankOf, RawOf, FlowOf, FlowIn, Server.Unwelcome, Server.Staged,
           Server.Negotiated, Server.Left, Server.OnCourse, Server.MayFail;
      while state != Done
        invariant Valid() && OnCourse() && (state == ProcessChangeCipherSpec ==> peer.ccsSeen)
        invariant (state == old(state) && Rank() == old(Rank())) || Rank() < old(Rank())
        invariant peer.received == old(peer.received)
        decreases Rank()
      {
        // whatever the outside says
        var w: World, hello: Hello, choice: Choice := *, *, *;
        label before:
        r := Step(w, hello, choice, check);
        if r == HsError { return; }
        StepKeeps@before(r);
        if r != HsOk { return; }
      }
      return HsOk;
    }

    // ---- whole runs ----

    /** Between calls: the handshake has failed, or it is on course and knows what it waits for. */
    ghost predicate Ready(wait: Wait)
      reads this, peer, peer.transcript
    {
      wait != HsError ==>
        && Valid() && OnCourse()
        && (state == ProcessChangeCipherSpec ==> peer.ccsSeen || wait == HsReadChangeCipherSpec)
        && Asks(wait) && (ForMessage(wait) ==> peer.inbox == [])
    }

    /**
    A finished handshake: exactly the messages of the RFC, both Finished right, and a client certificate,
    if there is one, verified and proved to be the client's.
    */
    ghost predicate Completed()
      reads this, peer, peer.transcript
    {
      && peer.Valid() && peer.flow == (if session then ResumedFlow(Opts()) else FullFlow(Opts()))
      && (peerCertificate ==> verified && proved) && (certRequest && needsCertificate ==> peerCertificate)
      && peer.readCipher && peer.writeCipher && peer.ccsSeen
    }

    /** What comes from the transport leaves the handshake where it is. */
    twostate lemma Undisturbed()
      requires old(Valid()) && unchanged(this) && peer.Valid() && peer.flow == old(peer.flow)
      requires peer.Progress() == old(peer.Progress()) && old(peer.inbox) <= peer.inbox
      ensures Valid() && (old(OnCourse()) ==> OnCourse())
    {
      hide Peer.Valid, Peer.Progress, RankOf, RawOf, FlowOf, FlowIn;
    }

    /** The wait is over, or goes on; `took` is the event that was waited for, if it came. */
    method Wake(wait: Wait, events: seq<Event>)
      returns (now: Wait, verdict: Verdict, rest: seq<Event>, ghost took: seq<Event>)
      requires wait != HsError && Ready(wait)
      modifies peer`inbox, peer`received, peer`ccsArrived, peer`ccsSeen
      ensures Valid() && OnCourse() && now != HsError
      ensures verdict == Proceed && state == ProcessChangeCipherSpec ==> peer.ccsSeen
      ensures verdict != Proceed ==> Ready(now) && (verdict == Again ==> took != [])
      ensures verdict != Return(true)
      ensures took <= events && |took| <= 1 && peer.received == old(peer.received) + MessagesOf(took)
      ensures rest == events[|took|..] || (verdict == Return(false) && Ended(now, events, took, rest))
      ensures verdict == Return(false) ==> Stops(now, events, took)
      ensures verdict == Proceed && took == [] ==> wait == HsOk || state == ProcessChangeCipherSpec
    {
      hide Peer.Valid, Peer.Progress, RankOf, RawOf, FlowOf, FlowIn, Server.Valid, Server.OnCourse, MessagesOf;
      assert peer.Valid() by { PeerValid(); }
      now, verdict, rest, took := peer.Resolve(wait, events, isDtls);
      Undisturbed();
      if took != [] { OneEvent(events[0]); } else { NoMessages(peer.received); }
    }

    /**
    One turn of `ssl_run_handshake`: if there is nothing to wait for any more, the handshake goes on. `took` is
    the event that was waited for, if it came.
    */
    method Advance(wait: Wait, events: seq<Event>, check: (Octets, Octets) -> bool)
      returns (now: Wait, verdict: Verdict, rest: seq<Event>, ghost took: seq<Event>)
      requires wait != HsError && Ready(wait)
      modifies this, peer, peer.transcript
      ensures Ready(now) && verdict != Return(true) && (verdict != Return(false) ==> now != HsError)
      ensures verdict == Proceed ==> state == Done
      ensures verdict == Again ==>
        && |rest| <= |events|
        && (|rest| < |events| || Rank() < old(Rank()) || (Rank() == old(Rank()) && now != HsOk && wait == HsOk))
      ensures took <= events && |took| <= 1 && peer.received == old(peer.received) + MessagesOf(took)
      ensures rest == events[|took|..] || (verdict == Return(false) && Ended(now, events, took, rest))
      ensures verdict == Return(false) ==> Stops(now, events, took)
    {
      hide Peer.Valid, Peer.Progress, RankOf, RawOf, FlowOf, FlowIn, Server.Valid, Server.OnCourse, MessagesOf;
      now, verdict, rest, took := Wake(wait, events);
      if verdict == Proceed {
        now := Handshake(check);
        verdict := if now == HsError then Return(false) else if now == HsOk then Proceed else Again;
      }
    }

    /** The states that may ask the application for something. */
    predicate MayPause()
      reads `state
    {
      state in {ReadClientHello, SelectCertificate, SelectParameters, SendServerKeyExchange, VerifyClientCertificate,
                ReadClientKeyExchange}
    }

    /** A call has failed, the application is asked, or the transport does not yield what is waited for. */
    predicate Stops(now: Wait, events: seq<Event>, took: seq<Event>)
      requires |took| <= |events|
      reads `state, peer`readCipher
    {
      now == HsError || (now == HsOk && MayPause()) || (ForTransport(now) && Starved(now, events, took))
    }

    /** The event behind those taken is not one that is waited for, or there is none. */
    predicate Starved(now: Wait, events: seq<Event>, took: seq<Event>)
      requires |took| <= |events|
      reads peer`readCipher
    {
      |took| == |events| || !Takes(now, isDtls, peer.readCipher, events[|took|])
    }

    /** It was looked at and ended the call. */
    predicate Ended(now: Wait, events: seq<Event>, took: seq<Event>, rest: seq<Event>)
      requires |took| <= |events|
      reads peer`readCipher
    {
      |took| < |events| && !Takes(now, isDtls, peer.readCipher, events[|took|]) && rest == events[|took| + 1..]
    }

    lemma PeerValid()
      requires Valid()
      ensures peer.Valid()
    {
    }

    lemma AtTheEnd()
      requires Valid() && OnCourse() && state == Done
      ensures Completed()
    {
    }

    /**
    `ssl_run_handshake`, for any behaviour of the transport and any number of calls: each is given what the
    call before was left waiting for, `HsOk` at first. What has come is just the messages among the events
    taken. A call that does not finish has failed, or the application is asked for something, or the transport
    does not yield what is waited for.
    */
    method Run(wait: Wait, events: seq<Event>, check: (Octets, Octets) -> bool)
      returns (now: Wait, outcome: Outcome, rest: seq<Event>, ghost heard: seq<Event>)
      requires Ready(wait)
      modifies this, peer, peer.transcript
      ensures Ready(now) && outcome != Early
      ensures outcome == Finished ==> state == Done && Completed()
      ensures wait == HsError ==> outcome == Unfinished && now == HsError && heard == [] && rest == events
      ensures heard <= events && peer.received == old(peer.received) + MessagesOf(heard)
      ensures rest == events[|heard|..] || (outcome == Unfinished && Ended(now, events, heard, rest))
      ensures outcome == Unfinished ==> Stops(now, events, heard)
    {
      hide Peer.Valid, Server.Completed, RawOf, FlowIn, MessagesOf, RankOf, Server.Valid, Server.OnCourse, Takes,
           Dropped;
      now, rest, heard := wait, events, [];
      assert old(peer.received) + MessagesOf([]) == old(peer.received) by { NoMessages(old(peer.received)); }
      if wait == HsError { return now, Unfinished, rest, heard; }
      var verdict := Again;
      while verdict == Again
        invariant Ready(now) && verdict != Return(true) && (verdict != Return(false) ==> now != HsError)
        invariant verdict == Proceed ==> state == Done
        invariant heard <= events && peer.received == old(peer.received) + MessagesOf(heard)
        invariant rest == events[|heard|..] || (verdict == Return(false) && Ended(now, events, heard, rest))
        invariant verdict == Return(false) ==> Stops(now, events, heard)
        decreases verdict == Again, |rest|, Rank(), now == HsOk
      {
        ghost var took, before, came := [], peer.received, heard;
        now, verdict, rest, took := Advance(now, rest, check);
        heard := heard + took;
        MoreHeard(old(peer.received), came, took, before);
        Further(events, came, took);
      }
      if verdict == Proceed { AtTheEnd(); }
      outcome := if verdict == Proceed then Finished else Unfinished;
    }
  }
}
