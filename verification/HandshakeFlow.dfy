/**
What a TLS handshake up to version 1.2 says, on values: messages, logs, transcripts, whose turn it is,
and the message flows of section 7.3 of RFC 5246 and section 3.3 of RFC 5077.

A log is every handshake message one side has sent or consumed, and every cipher change, in order; the
transcript is the raw bytes of its messages. Two sides that take turns cannot disagree about it
(`LogsAgree`).
*/
module HandshakeFlow {
  import opened Bytes

  // Handshake message types.
  const CLIENT_HELLO: Byte := 1
  const SERVER_HELLO: Byte := 2
  const HELLO_VERIFY_REQUEST: Byte := 3
  const NEW_SESSION_TICKET: Byte := 4
  const CERTIFICATE: Byte := 11
  const SERVER_KEY_EXCHANGE: Byte := 12
  const CERTIFICATE_REQUEST: Byte := 13
  const SERVER_HELLO_DONE: Byte := 14
  const CERTIFICATE_VERIFY: Byte := 15
  const CLIENT_KEY_EXCHANGE: Byte := 16
  const FINISHED: Byte := 20
  const CERTIFICATE_STATUS: Byte := 22
  const NEXT_PROTO: Byte := 67
  const CHANNEL_ID: Byte := 203

  /** A handshake message; `raw` is what goes into the transcript. */
  datatype Msg = Msg(kind: Byte, body: Octets, raw: Octets)

  /** What was said, and by whom (true: the server). */
  datatype History =
    | Begun
    | Told(prev: History, server: bool, msg: Msg)
    | Rekeyed(prev: History, server: bool)

  /** Its outline. */
  datatype Flow =
    | Start
    | Said(prev: Flow, server: bool, kind: Byte)
    | Changed(prev: Flow, server: bool)

  function FlowOf(log: History): Flow
  {
    match log
    case Begun => Start
    case Told(prev, server, m) => Said(FlowOf(prev), server, m.kind)
    case Rekeyed(prev, server) => Changed(FlowOf(prev), server)
  }

  function RawOf(log: History): Octets
  {
    match log
    case Begun => []
    case Told(prev, _, m) => RawOf(prev) + m.raw
    case Rekeyed(prev, _) => RawOf(prev)
  }

  /** The messages of one side. */
  function By(log: History, server: bool): seq<Msg>
  {
    match log
    case Begun => []
    case Told(prev, who, m) => if who == server then By(prev, server) + [m] else By(prev, server)
    case Rekeyed(prev, _) => By(prev, server)
  }

  /** The messages after which the other side speaks. */
  predicate EndsFlight(kind: Byte) { kind == CLIENT_HELLO || kind == SERVER_HELLO_DONE || kind == FINISHED }

  /** Whose turn it is: true if the server's. */
  function Turn(f: Flow): bool
  {
    match f
    case Start => false
    case Said(_, server, kind) => if EndsFlight(kind) then !server else server
    case Changed(prev, _) => Turn(prev)
  }

  /** The sides take turns exactly at the ends of flights. */
  predicate TakesTurns(log: History)
  {
    match log
    case Begun => true
    case Told(prev, server, _) => server == Turn(FlowOf(prev)) && TakesTurns(prev)
    case Rekeyed(prev, _) => TakesTurns(prev)
  }

  /** Every Finished is its sender's MAC of the transcript before it. */
  predicate FinishedHonest(log: History, mac: (Octets, bool) -> Octets)
  {
    match log
    case Begun => true
    case Told(prev, server, m) =>
      (m.kind == FINISHED ==> m.body == mac(RawOf(prev), server)) && FinishedHonest(prev, mac)
    case Rekeyed(prev, _) => FinishedHonest(prev, mac)
  }

  // ---- the flows of the RFCs ----

  /** The optional parts of a handshake. */
  datatype Options = Options(
    certificate: bool, status: bool, keyExchange: bool, certRequest: bool, clientCert: bool,
    nextProto: bool, channelId: bool, ticket: bool)

  function Optional(f: Flow, c: bool, server: bool, kind: Byte): Flow
  {
    if c then Said(f, server, kind) else f
  }

  function AfterClientHello(): Flow { Said(Start, false, CLIENT_HELLO) }

  function AfterServerHello(): Flow { Said(AfterClientHello(), true, SERVER_HELLO) }

  function AfterCertificate(o: Options): Flow { Optional(AfterServerHello(), o.certificate, true, CERTIFICATE) }

  function AfterStatus(o: Options): Flow { Optional(AfterCertificate(o), o.status, true, CERTIFICATE_STATUS) }

  function AfterServerKey(o: Options): Flow { Optional(AfterStatus(o), o.keyExchange, true, SERVER_KEY_EXCHANGE) }

  function AfterRequest(o: Options): Flow { Optional(AfterServerKey(o), o.certRequest, true, CERTIFICATE_REQUEST) }

  function AfterHelloDone(o: Options): Flow { Said(AfterRequest(o), true, SERVER_HELLO_DONE) }

  function AfterClientCertificate(o: Options): Flow { Optional(AfterHelloDone(o), o.certRequest, false, CERTIFICATE) }

  function AfterClientKey(o: Options): Flow { Said(AfterClientCertificate(o), false, CLIENT_KEY_EXCHANGE) }

  function AfterVerify(o: Options): Flow
  {
    Optional(AfterClientKey(o), o.certRequest && o.clientCert, false, CERTIFICATE_VERIFY)
  }

  /** The client's ChangeCipherSpec, what goes between, and its Finished. */
  function ClientFinish(f: Flow, o: Options): Flow { Said(Extras(Changed(f, false), o), false, FINISHED) }

  function Extras(f: Flow, o: Options): Flow
  {
    Optional(Optional(f, o.nextProto, false, NEXT_PROTO), o.channelId, false, CHANNEL_ID)
  }

  function AfterTicket(f: Flow, o: Options): Flow { Optional(f, o.ticket, true, NEW_SESSION_TICKET) }

  function ServerFinish(f: Flow, o: Options): Flow { Said(Changed(AfterTicket(f, o), true), true, FINISHED) }

  /** A full handshake: figure 1 of RFC 5246, with the ticket of RFC 5077. */
  function FullFlow(o: Options): Flow { ServerFinish(ClientFinish(AfterVerify(o), o), o) }

  /** An abbreviated handshake: figure 2 of RFC 5246. */
  function ResumedFlow(o: Options): Flow { ClientFinish(ServerFinish(AfterServerHello(), o), o) }

  /** Whether the client presents a certificate plays no part before it does. */
  lemma SameHelloDone(a: Options, b: Options)
    requires a.(clientCert := b.clientCert) == b
    ensures AfterHelloDone(a) == AfterHelloDone(b)
  {
  }

  // ---- two honest sides ----

  function Count(log: History): nat
  {
    match log
    case Begun => 0
    case Told(prev, _, _) => Count(prev) + 1
    case Rekeyed(prev, _) => Count(prev)
  }

  /** The first `n` messages. */
  function Upto(log: History, n: nat): History
    requires n <= Count(log)
  {
    match log
    case Begun => Begun
    case Told(prev, server, m) => if n == Count(log) then Told(Upto(prev, n - 1), server, m) else Upto(prev, n)
    case Rekeyed(prev, _) => Upto(prev, n)
  }

  /** Dropping the cipher changes drops nothing else. */
  lemma {:induction false} UptoAll(log: History)
    ensures var all := Upto(log, Count(log)); RawOf(all) == RawOf(log) && Turn(FlowOf(all)) == Turn(FlowOf(log))
  {
    match log
    case Begun =>
    case Told(prev, _, _) => UptoAll(prev);
    case Rekeyed(prev, _) => UptoAll(prev);
  }

  /** Message `n`: it is its side's next one, and it was its side's turn. */
  lemma {:induction false} UptoNext(log: History, n: nat)
    requires n < Count(log) && TakesTurns(log)
    ensures var next := Upto(log, n + 1);
            && next.Told? && next.prev == Upto(log, n) && next.server == Turn(FlowOf(next.prev))
            && By(next, next.server) <= By(log, next.server)
  {
    match log
    case Told(prev, server, m) =>
      if n + 1 < Count(log) {
        UptoNext(prev, n);
      } else {
        UptoAll(prev);
        UptoBy(prev, server);
      }
    case Rekeyed(prev, _) => UptoNext(prev, n);
  }

  lemma {:induction false} UptoBy(log: History, server: bool)
    ensures By(Upto(log, Count(log)), server) == By(log, server)
  {
    match log
    case Begun =>
    case Told(prev, _, _) => UptoBy(prev, server);
    case Rekeyed(prev, _) => UptoBy(prev, server);
  }

  /**
  A client and a server that take turns, over channels that deliver what was sent, in order and
  unchanged, never disagree: whatever has happened so far, they have seen the same messages.
  */
  lemma {:induction false} LogsAgree(client: History, server: History, n: nat)
    requires TakesTurns(client) && TakesTurns(server)
    requires By(server, false) <= By(client, false) && By(client, true) <= By(server, true)
    requires n <= Count(client) && n <= Count(server)
    ensures Upto(client, n) == Upto(server, n)
  {
    if n == 0 {
      UptoNone(client);
      UptoNone(server);
    } else {
      LogsAgree(client, server, n - 1);
      UptoNext(client, n - 1);
      UptoNext(server, n - 1);
      var c, s := Upto(client, n), Upto(server, n);
      assert c.server == s.server;
      var k := |By(c.prev, c.server)|;
      assert By(c, c.server)[k] == c.msg && By(s, c.server)[k] == s.msg;
    }
  }

  lemma {:induction false} UptoNone(log: History)
    ensures Upto(log, 0) == Begun
  {
    if !log.Begun? { UptoNone(log.prev); }
  }

  /**
  So the Finished one honest side has sent is the one the other expects when it is about to consume it:
  both MACs are over the same transcript.
  */
  lemma FinishedAgrees(client: History, server: History, ahead: History, behind: History, mac: (Octets, bool) -> Octets)
    requires TakesTurns(client) && TakesTurns(server)
    requires By(server, false) <= By(client, false) && By(client, true) <= By(server, true)
    requires (ahead == client && behind == server) || (ahead == server && behind == client)
    requires FinishedHonest(ahead, mac) && Count(behind) < Count(ahead)
    ensures var next := Upto(ahead, Count(behind) + 1);
            next.Told? && (next.msg.kind == FINISHED ==> next.msg.body == mac(RawOf(behind), next.server))
  {
    hide By, TakesTurns, Upto, RawOf, FlowOf, Turn, Count;
    var n := Count(behind);
    LogsAgree(client, server, n);
    UptoNext(ahead, n);
    UptoHonest(ahead, mac, n + 1);
    UptoAll(behind);
  }

  lemma {:induction false} UptoHonest(log: History, mac: (Octets, bool) -> Octets, n: nat)
    requires n <= Count(log) && FinishedHonest(log, mac)
    ensures FinishedHonest(Upto(log, n), mac)
  {
    match log
    case Begun =>
    case Told(prev, _, _) =>
      if n == Count(log) {
        UptoHonest(prev, mac, n - 1);
        UptoAll(prev);
      } else {
        UptoHonest(prev, mac, n);
      }
    case Rekeyed(prev, _) => UptoHonest(prev, mac, n);
  }
}
