/**
Two honest sides over channels that deliver what was sent, in order and unchanged: at any time they have
the same transcript as far as both have come, and when both are done they agree on all of it and on what
it settled.
*/
module HandshakeAgreement {
  import opened Bytes
  import opened HandshakeFlow
  import opened HandshakePeer
  import ClientHandshake
  import ServerHandshake

  /** What each side was given is a beginning of what the other has sent since the handshake started. */
  ghost predicate Channels(client: Peer, server: Peer)
    requires client.start <= |client.outbox| && server.start <= |server.outbox|
    reads client, server
  {
    server.received <= client.outbox[client.start..] && client.received <= server.outbox[server.start..]
  }

  lemma PeersAgree(client: Peer, server: Peer)
    requires client.Valid() && server.Valid() && !client.isServer && server.isServer && Channels(client, server)
    ensures forall n: nat :: n <= Count(client.log) && n <= Count(server.log) ==>
      Upto(client.log, n) == Upto(server.log, n)
    ensures Count(client.log) == Count(server.log) ==> RawOf(client.log) == RawOf(server.log)
  {
    assert By(server.log, false) <= server.received && By(client.log, true) <= client.received;
    forall n: nat | n <= Count(client.log) && n <= Count(server.log)
      ensures Upto(client.log, n) == Upto(server.log, n)
    {
      LogsAgree(client.log, server.log, n);
    }
    UptoAll(client.log);
    UptoAll(server.log);
  }

  /** `kind` is among the messages of `server`'s side. */
  predicate Says(f: Flow, server: bool, kind: Byte)
  {
    match f
    case Start => false
    case Said(prev, speaker, what) => (speaker == server && what == kind) || Says(prev, server, kind)
    case Changed(prev, _) => Says(prev, server, kind)
  }

  function Finishes(f: Flow): nat
  {
    match f
    case Start => 0
    case Said(prev, _, kind) => Finishes(prev) + if kind == FINISHED then 1 else 0
    case Changed(prev, _) => Finishes(prev)
  }

  lemma {:induction false} UptoSays(log: History, server: bool, kind: Byte)
    ensures Says(FlowOf(Upto(log, Count(log))), server, kind) == Says(FlowOf(log), server, kind)
  {
    if !log.Begun? { UptoSays(log.prev, server, kind); }
  }

  lemma {:induction false} UptoFinishes(log: History, n: nat)
    requires n <= Count(log)
    ensures Finishes(FlowOf(Upto(log, n))) <= Finishes(FlowOf(log))
    ensures n == Count(log) ==> Finishes(FlowOf(Upto(log, n))) == Finishes(FlowOf(log))
  {
    match log
    case Begun =>
    case Told(prev, _, _) => if n == Count(log) { UptoFinishes(prev, n - 1); } else { UptoFinishes(prev, n); }
    case Rekeyed(prev, _) => UptoFinishes(prev, n);
  }

  function DoneFlow(resumed: bool, o: Options): Flow
  {
    if resumed then ResumedFlow(o) else FullFlow(o)
  }

  /** A handshake that is done has exactly two Finished messages, one of them its last. */
  lemma TwoFinishes(resumed: bool, o: Options)
    ensures var f := DoneFlow(resumed, o); f.Said? && f.kind == FINISHED && Finishes(f) == 2
  {
    if resumed {
      hide AfterServerHello, ServerFinish;
      OneFinish(AfterServerHello(), o);
      OneFinish(ServerFinish(AfterServerHello(), o), o);
      NoneBefore(o);
    } else {
      hide AfterServerHello, AfterVerify, ClientFinish;
      NoneBefore(o);
      OneFinish(AfterVerify(o), o);
      OneFinish(ClientFinish(AfterVerify(o), o), o);
    }
  }

  lemma NoneBefore(o: Options)
    ensures Finishes(AfterServerHello()) == 0 == Finishes(AfterVerify(o))
  {
    NoFinish(AfterServerHello(), o.certificate, true, CERTIFICATE);
    NoFinish(AfterCertificate(o), o.status, true, CERTIFICATE_STATUS);
    NoFinish(AfterStatus(o), o.keyExchange, true, SERVER_KEY_EXCHANGE);
    NoFinish(AfterServerKey(o), o.certRequest, true, CERTIFICATE_REQUEST);
    NoFinish(AfterHelloDone(o), o.certRequest, false, CERTIFICATE);
    NoFinish(AfterClientKey(o), o.certRequest && o.clientCert, false, CERTIFICATE_VERIFY);
  }

  lemma NoFinish(f: Flow, c: bool, server: bool, kind: Byte)
    requires kind != FINISHED
    ensures Finishes(Optional(f, c, server, kind)) == Finishes(f)
  {
  }

  lemma OneFinish(f: Flow, o: Options)
    ensures Finishes(ClientFinish(f, o)) == Finishes(f) + 1 && Finishes(ServerFinish(f, o)) == Finishes(f) + 1
  {
    NoFinish(Changed(f, false), o.nextProto, false, NEXT_PROTO);
    NoFinish(Optional(Changed(f, false), o.nextProto, false, NEXT_PROTO), o.channelId, false, CHANNEL_ID);
    NoFinish(f, o.ticket, true, NEW_SESSION_TICKET);
  }

  /** With as many Finished messages behind it, a log that goes on cannot end with one. */
  lemma NothingMore(a: History, b: History)
    requires Count(a) <= Count(b) && Upto(a, Count(a)) == Upto(b, Count(a))
    requires Finishes(FlowOf(a)) == Finishes(FlowOf(b)) && b.Told? && b.msg.kind == FINISHED
    ensures Count(a) == Count(b)
  {
    UptoFinishes(a, Count(a));
    if Count(a) < Count(b) {
      UptoFinishes(b.prev, Count(a));
    }
  }

  lemma SaysOptional(f: Flow, c: bool, server: bool, kind: Byte, who: bool, what: Byte)
    ensures Says(Optional(f, c, server, kind), who, what) <==>
            Says(f, who, what) || (c && who == server && what == kind)
  {
  }

  /** Of the optional messages of a finish, exactly the ones settled are said. */
  lemma ClientFinishSays(f: Flow, o: Options, kind: Byte)
    ensures Says(ClientFinish(f, o), false, kind) <==>
      || Says(f, false, kind) || kind == FINISHED
      || (o.nextProto && kind == NEXT_PROTO) || (o.channelId && kind == CHANNEL_ID)
    ensures Says(ClientFinish(f, o), true, kind) <==> Says(f, true, kind)
  {
    forall who: bool ensures Says(Extras(Changed(f, false), o), who, kind) <==>
      Says(f, who, kind) || (!who && ((o.nextProto && kind == NEXT_PROTO) || (o.channelId && kind == CHANNEL_ID)))
    {
      SaysOptional(Changed(f, false), o.nextProto, false, NEXT_PROTO, who, kind);
      var g := Optional(Changed(f, false), o.nextProto, false, NEXT_PROTO);
      SaysOptional(g, o.channelId, false, CHANNEL_ID, who, kind);
    }
  }

  lemma ServerFinishSays(f: Flow, o: Options, kind: Byte)
    ensures Says(ServerFinish(f, o), true, kind) <==>
      Says(f, true, kind) || kind == FINISHED || (o.ticket && kind == NEW_SESSION_TICKET)
    ensures Says(ServerFinish(f, o), false, kind) <==> Says(f, false, kind)
  {
    SaysOptional(f, o.ticket, true, NEW_SESSION_TICKET, true, kind);
    SaysOptional(f, o.ticket, true, NEW_SESSION_TICKET, false, kind);
  }

  /** What the server says before the Finished messages of a full handshake. */
  predicate ServerSays(o: Options, kind: Byte)
  {
    || kind == SERVER_HELLO || (o.certificate && kind == CERTIFICATE) || (o.status && kind == CERTIFICATE_STATUS)
    || (o.keyExchange && kind == SERVER_KEY_EXCHANGE) || (o.certRequest && kind == CERTIFICATE_REQUEST)
    || kind == SERVER_HELLO_DONE
  }

  predicate ClientSays(o: Options, kind: Byte)
  {
    || kind == CLIENT_HELLO || (o.certRequest && kind == CERTIFICATE) || kind == CLIENT_KEY_EXCHANGE
    || (o.certRequest && o.clientCert && kind == CERTIFICATE_VERIFY)
  }

  lemma HellosSay(who: bool, kind: Byte)
    ensures Says(AfterServerHello(), who, kind) <==> kind == if who then SERVER_HELLO else CLIENT_HELLO
  {
    assert Says(AfterClientHello(), who, kind) <==> !who && kind == CLIENT_HELLO;
  }

  lemma ExchangeSays(o: Options, who: bool, kind: Byte)
    ensures Says(AfterVerify(o), who, kind) <==> if who then ServerSays(o, kind) else ClientSays(o, kind)
  {
    HellosSay(who, kind);
    SaysOptional(AfterServerHello(), o.certificate, true, CERTIFICATE, who, kind);
    SaysOptional(AfterCertificate(o), o.status, true, CERTIFICATE_STATUS, who, kind);
    SaysOptional(AfterStatus(o), o.keyExchange, true, SERVER_KEY_EXCHANGE, who, kind);
    SaysOptional(AfterServerKey(o), o.certRequest, true, CERTIFICATE_REQUEST, who, kind);
    SaysOptional(AfterHelloDone(o), o.certRequest, false, CERTIFICATE, who, kind);
    SaysOptional(AfterClientKey(o), o.certRequest && o.clientCert, false, CERTIFICATE_VERIFY, who, kind);
  }

  predicate DoneSay(resumed: bool, o: Options, who: bool, kind: Byte)
  {
    || kind == FINISHED || (who && o.ticket && kind == NEW_SESSION_TICKET)
    || (!who && ((o.nextProto && kind == NEXT_PROTO) || (o.channelId && kind == CHANNEL_ID)))
    || (if resumed then kind == (if who then SERVER_HELLO else CLIENT_HELLO)
        else if who then ServerSays(o, kind) else ClientSays(o, kind))
  }

  lemma DoneSays(resumed: bool, o: Options, who: bool, kind: Byte)
    ensures Says(DoneFlow(resumed, o), who, kind) <==> DoneSay(resumed, o, who, kind)
  {
    if resumed {
      HellosSay(who, kind);
      ServerFinishSays(AfterServerHello(), o, kind);
      ClientFinishSays(ServerFinish(AfterServerHello(), o), o, kind);
    } else {
      ExchangeSays(o, who, kind);
      ClientFinishSays(AfterVerify(o), o, kind);
      ServerFinishSays(ClientFinish(AfterVerify(o), o), o, kind);
    }
  }

  /** What was said tells what was settled. */
  lemma SameOptions(r: bool, a: Options, b: Options)
    requires forall who: bool, kind: Byte :: Says(DoneFlow(r, a), who, kind) == Says(DoneFlow(r, b), who, kind)
    ensures a.nextProto == b.nextProto && a.channelId == b.channelId && a.ticket == b.ticket
    ensures !r ==>
      && a.certificate == b.certificate && a.status == b.status && a.keyExchange == b.keyExchange
      && a.certRequest == b.certRequest && (a.certRequest ==> a.clientCert == b.clientCert)
  {
    forall who: bool, kind: Byte ensures DoneSay(r, a, who, kind) == DoneSay(r, b, who, kind) {
      DoneSays(r, a, who, kind);
      DoneSays(r, b, who, kind);
    }
    assert DoneSay(r, a, true, NEW_SESSION_TICKET) == DoneSay(r, b, true, NEW_SESSION_TICKET);
    assert DoneSay(r, a, false, NEXT_PROTO) == DoneSay(r, b, false, NEXT_PROTO);
    assert DoneSay(r, a, false, CHANNEL_ID) == DoneSay(r, b, false, CHANNEL_ID);
    assert DoneSay(r, a, true, CERTIFICATE) == DoneSay(r, b, true, CERTIFICATE);
    assert DoneSay(r, a, true, CERTIFICATE_STATUS) == DoneSay(r, b, true, CERTIFICATE_STATUS);
    assert DoneSay(r, a, true, SERVER_KEY_EXCHANGE) == DoneSay(r, b, true, SERVER_KEY_EXCHANGE);
    assert DoneSay(r, a, true, CERTIFICATE_REQUEST) == DoneSay(r, b, true, CERTIFICATE_REQUEST);
    assert DoneSay(r, a, false, CERTIFICATE_VERIFY) == DoneSay(r, b, false, CERTIFICATE_VERIFY);
  }

  /**
  When a client and a server are both done, they have said and heard the same, byte for byte: they agree
  on whether this was a resumption, on the ticket, and on everything that was optional.
  */
  lemma BothDone(client: ClientHandshake.Client, server: ServerHandshake.Server)
    requires client.Completed() && server.Completed()
    requires !client.peer.isServer && server.peer.isServer && Channels(client.peer, server.peer)
    ensures RawOf(client.peer.log) == RawOf(server.peer.log)
    ensures client.session == server.session
    ensures client.nextProto == server.nextProto && client.channelId == server.channelId
    ensures client.ticket == server.ticketExpected
    ensures !client.session ==>
      && client.usesCertificate == server.usesCertificate && client.keyExchange == server.keyExchange
      && client.status == (server.usesCertificate && server.statusExpected)
      && client.certRequest == server.certRequest
      && (client.certRequest ==> client.hasCertificate == server.peerCertificate)
  {
    var c, s := client.peer.log, server.peer.log;
    TwoFinishes(client.session, client.Opts());
    TwoFinishes(server.session, server.Opts());
    PeersAgree(client.peer, server.peer);
    if Count(c) <= Count(s) {
      NothingMore(c, s);
    } else {
      NothingMore(s, c);
    }
    UptoAll(c);
    UptoAll(s);
    forall who: bool, kind: Byte ensures Says(client.peer.flow, who, kind) == Says(server.peer.flow, who, kind) {
      UptoSays(c, who, kind);
      UptoSays(s, who, kind);
    }
    SameOptions(client.session, client.Opts(), server.Opts());
  }
}
