/**
What the TLS client and server handshakes share: the transcript, sending and consuming messages,
the cipher changes, the two Finished messages, and what a handshake waits for (`ssl_transcript.cc`,
`handshake.cc`).

`Peer.Valid` keeps, in every run, that buffer and hash are the transcript of the log, that the log holds
each message sent and each message consumed exactly once and in order, and that `flow` is its shape.
*/
module HandshakePeer {
  import opened Bytes
  import opened HandshakeFlow

  /** `ssl_hs_wait_t`, without the TLS 1.3 and handoff values. */
  datatype Wait =
    | HsOk | HsError | HsFlush | HsReadServerHello | HsReadMessage | HsReadChangeCipherSpec
    | HsX509Lookup | HsChannelIdLookup | HsPrivateKeyOperation | HsPendingSession | HsPendingTicket
    | HsCertificateVerify | HsCertificateSelectionPending | HsEarlyReturn

  /** What a callback says that may need to be asked again. */
  datatype Answer = Yes | No | Retry

  /**
  What is said from outside the model during one step: whether everything that is parsed and checked is in
  order, what the callback answers, what is chosen where there is a choice, and the bodies composed.
  */
  datatype World = World(ok: bool, answer: Answer, choice: bool, body: Octets, more: Octets)

  /** What is kept of the transcript, whether this side may speak, and whether a message is being read. */
  datatype Stage = Stage(buffer: bool, hash: bool, maySend: bool, pending: bool, writeCipher: bool, readCipher: bool)

  /** `SSLTranscript`: the raw buffer, and the input of the running hash once its digest is known. */
  class Transcript {
    var buffer: Option<Octets>
    var hash: Option<Octets>

    constructor ()
      ensures buffer == Some([]) && hash == None
    {
      buffer, hash := Some([]), None;
    }

    /** `Init`. */
    method Init()
      modifies this
      ensures buffer == Some([]) && hash == None
    {
      buffer, hash := Some([]), None;
    }

    /** `InitHash`: the hash starts from the buffer. */
    method InitHash()
      requires buffer.Some?
      modifies this`hash
      ensures hash == buffer
    {
      hash := buffer;
    }

    /** `FreeBuffer`. */
    method FreeBuffer()
      modifies this`buffer
      ensures buffer == None
    {
      buffer := None;
    }

    /** `Update`. */
    method Update(data: Octets)
      modifies this
      ensures buffer == if old(buffer).Some? then Some(old(buffer).value + data) else None
      ensures hash == if old(hash).Some? then Some(old(hash).value + data) else None
    {
      if buffer.Some? { buffer := Some(buffer.value + data); }
      if hash.Some? { hash := Some(hash.value + data); }
    }
  }

  /** What the transport did while the handshake waited. */
  datatype Event = Flushed | Message(msg: Msg) | ChangeCipherSpec | Blocked | Failed

  /** The messages among the events. */
  function MessagesOf(events: seq<Event>): seq<Msg>
  {
    if events == [] then []
    else
      var n := |events| - 1;
      MessagesOf(events[..n]) + match events[n] case Message(m) => [m] case _ => []
  }

  lemma OneEvent(e: Event)
    ensures MessagesOf([e]) == match e case Message(m) => [m] case _ => []
  {
    assert [e][..0] == [];
  }

  lemma {:induction false} MessagesAppend(a: seq<Event>, b: seq<Event>)
    ensures MessagesOf(a + b) == MessagesOf(a) + MessagesOf(b)
    decreases |b|
  {
    if b == [] {
      assert a + b == a;
    } else {
      assert (a + b)[..|a + b| - 1] == a + b[..|b| - 1];
      MessagesAppend(a, b[..|b| - 1]);
    }
  }

  /** Without its first message, a HelloVerifyRequest. */
  predicate Dropped(before: seq<Msg>, after: seq<Msg>)
  {
    before != [] && before[0].kind == HELLO_VERIFY_REQUEST && after == before[1..]
  }

  /** The application has been asked for something and needs time. */
  predicate Pauses(wait: Wait)
  {
    wait in {HsX509Lookup, HsChannelIdLookup, HsPrivateKeyOperation, HsPendingSession, HsPendingTicket,
             HsCertificateVerify, HsCertificateSelectionPending}
  }

  lemma NoMessages(before: seq<Msg>)
    ensures before + MessagesOf([]) == before
  {
  }

  /** More messages come behind those before, whether or not the first of all has been dropped. */
  lemma MoreHeard(start: seq<Msg>, heard: seq<Event>, took: seq<Event>, received: seq<Msg>)
    ensures var base, more := start + MessagesOf(heard), start + MessagesOf(heard + took);
            && base + MessagesOf(took) == more
            && (received == base ==> received + MessagesOf(took) == more)
            && (Dropped(base, received) ==> Dropped(more, received + MessagesOf(took)))
  {
    MessagesAppend(heard, took);
    assert start + (MessagesOf(heard) + MessagesOf(took)) == start + MessagesOf(heard) + MessagesOf(took);
  }

  /** Taking events from the front, one more at a time. */
  lemma Further(events: seq<Event>, came: seq<Event>, took: seq<Event>)
    requires came <= events && took <= events[|came|..]
    ensures came + took <= events && events[|came|..][|took|..] == events[|came + took|..]
    ensures |took| < |events[|came|..]| ==>
      && |came + took| < |events|
      && events[|came|..][|took| + 1..] == events[|came + took| + 1..]
      && events[|came|..][|took|] == events[|came + took|]
  {
  }

  /** What the transport has to do something about; the other waits are over or the application's. */
  predicate ForTransport(wait: Wait)
  {
    wait in {HsFlush, HsReadServerHello, HsReadMessage, HsReadChangeCipherSpec}
  }

  predicate ForMessage(wait: Wait) { wait in {HsReadServerHello, HsReadMessage} }

  /** The transport was asked for this; anything else stays where it is until it is asked for. */
  predicate Answers(wait: Wait, e: Event)
  {
    match e
    case Flushed => wait == HsFlush
    case Message(_) => wait != HsFlush
    case ChangeCipherSpec => wait != HsFlush
    case _ => true
  }

  /** What came is in order; DTLS takes messages and a ChangeCipherSpec that are early. */
  predicate Takes(wait: Wait, isDtls: bool, readCipher: bool, e: Event)
  {
    match e
    case Flushed => wait == HsFlush
    case Message(_) => ForMessage(wait) || (isDtls && wait == HsReadChangeCipherSpec)
    case ChangeCipherSpec => wait == HsReadChangeCipherSpec || (isDtls && !readCipher && ForMessage(wait))
    case _ => false
  }

  /** `ssl_run_handshake` goes on, asks the transport again, or returns to the caller. */
  datatype Verdict = Proceed | Again | Return(early: bool)

  /** What a call of `ssl_run_handshake` tells its caller. */
  datatype Outcome = Finished | Early | Unfinished

  /** One side of a handshake. */
  class Peer {
    const isServer: bool
    const transcript: Transcript
    // the Finished MAC over a transcript, for a sender (true: the server)
    const mac: (Octets, bool) -> Octets
    // how a type and a body are framed on this transport
    const frame: (Byte, Octets) -> Octets
    var inbox: seq<Msg>
    var outbox: seq<Msg>
    // the negotiated cipher is in use in this direction
    var writeCipher: bool
    var readCipher: bool
    // the peer's ChangeCipherSpec has arrived, and has been accepted
    var ccsArrived: bool
    var ccsSeen: bool
    ghost var log: History
    ghost var flow: Flow
    // messages that arrived, and where the outbox stood, when the handshake (re)started
    ghost var received: seq<Msg>
    ghost var start: nat
    // the first message of the inbox is in the log already
    ghost var pending: bool

    /** Buffer and hash, as far as they are kept, are the messages logged. */
    ghost predicate Transcribed()
      reads `log, transcript
    {
      && (transcript.buffer.Some? ==> transcript.buffer.value == RawOf(log))
      && (transcript.hash.Some? ==> transcript.hash.value == RawOf(log))
      && (transcript.buffer.Some? || transcript.hash.Some?)
    }

    /** The log holds every message sent, and every message taken off the inbox, once and in order. */
    ghost predicate Exact()
      reads `start, `outbox, `log, `pending, `inbox, `received
    {
      && start <= |outbox| && By(log, isServer) == outbox[start..]
      && (pending ==> inbox != []) && By(log, !isServer) + (if pending then inbox[1..] else inbox) == received
    }

    ghost predicate Valid()
      reads this, transcript
    {
      && Transcribed() && Exact() && TakesTurns(log) && FinishedHonest(log, mac) && FlowOf(log) == flow
      && (readCipher ==> ccsSeen)
    }

    ghost function Progress(): Stage
      reads this, transcript
    {
      Stage(transcript.buffer.Some?, transcript.hash.Some?, Turn(flow) == isServer, pending, writeCipher, readCipher)
    }

    constructor (isServer: bool, mac: (Octets, bool) -> Octets, frame: (Byte, Octets) -> Octets)
      ensures Valid() && this.isServer == isServer && log == Begun
      ensures inbox == [] && outbox == [] && !ccsSeen && received == []
      ensures fresh(transcript) && this.mac == mac && flow == Start
      ensures Progress() == Stage(true, false, !isServer, false, false, false)
    {
      this.isServer, this.mac, this.frame := isServer, mac, frame;
      transcript := new Transcript();
      inbox, outbox, received, log, flow, start, pending := [], [], [], Begun, Start, 0, false;
      writeCipher, readCipher, ccsArrived, ccsSeen := false, false, false, false;
    }

    /** `ssl_add_message_cbb`: the message joins the flight and the transcript. */
    method Send(kind: Byte, body: Octets)
      requires Valid() && Progress().maySend
      requires kind == FINISHED ==> body == mac(RawOf(log), isServer)
      modifies this`outbox, this`log, this`flow, transcript
      ensures Valid() && Progress() == old(Progress()).(maySend := !EndsFlight(kind))
      ensures flow == Said(old(flow), isServer, kind)
      ensures var m := Msg(kind, body, frame(kind, body));
              log == Told(old(log), isServer, m) && outbox == old(outbox) + [m]
    {
      var m := Msg(kind, body, frame(kind, body));
      transcript.Update(m.raw);
      assert (outbox + [m])[start..] == outbox[start..] + [m];
      outbox, log, flow := outbox + [m], Told(log, isServer, m), Said(flow, isServer, kind);
    }

    /** `ssl_hash_message` on the current message. */
    method Hash()
      requires Valid() && !Progress().maySend && inbox != [] && !Progress().pending
      requires inbox[0].kind == FINISHED ==> inbox[0].body == mac(RawOf(log), !isServer)
      modifies this`log, this`flow, this`pending, transcript
      ensures Valid() && Progress() == old(Progress()).(maySend := EndsFlight(inbox[0].kind), pending := true)
      ensures log == Told(old(log), !isServer, inbox[0]) && flow == Said(old(flow), !isServer, inbox[0].kind)
    {
      transcript.Update(inbox[0].raw);
      assert [inbox[0]] + inbox[1..] == inbox;
      log, flow, pending := Told(log, !isServer, inbox[0]), Said(flow, !isServer, inbox[0].kind), true;
    }

    /** `next_message`: only a message that has been hashed is let go. */
    method Next()
      requires Valid() && Progress().pending
      modifies this`inbox, this`pending
      ensures Valid() && Progress() == old(Progress()).(pending := false) && inbox == old(inbox)[1..]
    {
      inbox, pending := inbox[1..], false;
    }

    /** The usual way to read a message: its type, its hash, its body (is it `parsed`?), the next one. */
    method Take(kind: Byte, parsed: bool) returns (r: Wait)
      requires Valid() && !Progress().maySend && !Progress().pending && kind != FINISHED
      modifies this`log, this`flow, this`inbox, this`pending, transcript
      ensures r == if old(inbox) == [] then HsReadMessage
                   else if old(inbox)[0].kind == kind && parsed then HsOk else HsError
      ensures r == HsReadMessage ==>
        Valid() && Progress() == old(Progress()) && flow == old(flow) && log == old(log) && inbox == old(inbox)
      ensures r == HsOk ==>
        && Valid() && Progress() == old(Progress()).(maySend := EndsFlight(kind))
        && flow == Said(old(flow), !isServer, kind)
        && log == Told(old(log), !isServer, old(inbox)[0]) && inbox == old(inbox)[1..]
    {
      if inbox == [] {
        return HsReadMessage;
      }
      if inbox[0].kind != kind {
        return HsError;
      }
      Hash();
      if !parsed { return HsError; }
      Next();
      return HsOk;
    }

    /** The digest is known: the hash starts from the buffer, which must still be there. */
    method InitHash()
      requires Valid() && Progress().buffer
      modifies transcript`hash
      ensures Valid() && Progress() == old(Progress()).(hash := true)
    {
      transcript.InitHash();
    }

    method FreeBuffer()
      requires Valid() && Progress().hash
      modifies transcript`buffer
      ensures Valid() && Progress() == old(Progress()).(buffer := false)
    {
      transcript.FreeBuffer();
    }

    /** The raw messages so far, as a CertificateVerify signature covers them; the buffer must still be there. */
    method SignedTranscript() returns (data: Octets)
      requires Valid() && Progress().buffer
      ensures data == RawOf(log)
    {
      data := transcript.buffer.value;
    }

    /** The current message is dropped and the transcript starts again (DTLS, after a HelloVerifyRequest). */
    method Restart()
      requires Valid() && inbox != []
      modifies this`log, this`flow, this`inbox, this`received, this`start, this`pending, transcript
      ensures Valid() && log == Begun && inbox == old(inbox)[1..] && received == inbox && start == |outbox|
      ensures flow == Start && Progress() == Stage(true, false, !isServer, false, writeCipher, readCipher)
    {
      inbox := inbox[1..];
      transcript.Init();
      log, flow, received, start, pending := Begun, Start, inbox, |outbox|, false;
    }

    /** `ssl_get_finished`. The buffer must be gone by now: the MAC is over the hash alone. */
    method GetFinished() returns (r: Wait)
      requires Valid() && !Progress().maySend && !Progress().pending && Progress().hash && !Progress().buffer
      requires Progress().readCipher
      modifies this`log, this`flow, this`inbox, this`pending, transcript
      ensures r == if old(inbox) == [] then HsReadMessage
                   else if old(inbox)[0].kind == FINISHED && old(inbox)[0].body == mac(RawOf(old(log)), !isServer)
                   then HsOk else HsError
      ensures r == HsReadMessage ==>
        Valid() && Progress() == old(Progress()) && flow == old(flow) && log == old(log) && inbox == old(inbox)
      ensures r == HsOk ==>
        && Valid() && Progress() == old(Progress()).(maySend := true) && flow == Said(old(flow), !isServer, FINISHED)
        && log == Told(old(log), !isServer, old(inbox)[0]) && inbox == old(inbox)[1..]
    {
      if inbox == [] {
        return HsReadMessage;
      }
      if inbox[0].kind != FINISHED {
        return HsError;
      }
      // taken before the message itself is hashed; on a mismatch nothing uses the transcript again
      var finished := mac(transcript.hash.value, !isServer);
      if inbox[0].body != finished {
        return HsError;
      }
      Hash();
      Next();
      return HsOk;
    }

    /** `ssl_send_finished`. */
    method SendFinished()
      requires Valid() && Progress().maySend && Progress().hash && !Progress().buffer && Progress().writeCipher
      modifies this`log, this`flow, this`outbox, transcript
      ensures Valid() && Progress() == old(Progress()).(maySend := false) && flow == Said(old(flow), isServer, FINISHED)
      ensures var body := mac(RawOf(old(log)), isServer);
              var m := Msg(FINISHED, body, frame(FINISHED, body));
              log == Told(old(log), isServer, m) && outbox == old(outbox) + [m]
    {
      Send(FINISHED, mac(transcript.hash.value, isServer));
    }

    /** `tls1_change_cipher_state` for writing, behind the ChangeCipherSpec that announces it. */
    method ChangeWriteCipher()
      requires Valid()
      modifies this`writeCipher, this`log, this`flow
      ensures log == Rekeyed(old(log), isServer)
      ensures Valid() && Progress() == old(Progress()).(writeCipher := true) && flow == Changed(old(flow), isServer)
    {
      writeCipher, log, flow := true, Rekeyed(log, isServer), Changed(flow, isServer);
    }

    /** `tls1_change_cipher_state` for reading, after the peer's ChangeCipherSpec. */
    method ChangeReadCipher()
      requires Valid() && ccsSeen
      modifies this`readCipher, this`log, this`flow
      ensures log == Rekeyed(old(log), !isServer)
      ensures Valid() && Progress() == old(Progress()).(readCipher := true) && flow == Changed(old(flow), !isServer)
    {
      readCipher, log, flow := true, Rekeyed(log, !isServer), Changed(flow, !isServer);
    }

    /** The transport has read a handshake message. */
    method Arrive(m: Msg)
      requires Valid()
      modifies this`inbox, this`received
      ensures Valid() && Progress() == old(Progress()) && inbox == old(inbox) + [m] && received == old(received) + [m]
    {
      if pending { assert (inbox + [m])[1..] == inbox[1..] + [m]; }
      assert By(log, !isServer) + ((if pending then inbox[1..] else inbox) + [m]) == received + [m];
      inbox, received := inbox + [m], received + [m];
    }

    /** A ChangeCipherSpec came before it was asked for. */
    predicate CameEarly(wait: Wait, isDtls: bool)
      reads `ccsArrived
    {
      wait == HsReadChangeCipherSpec && isDtls && ccsArrived
    }

    /**
    `ssl_run_handshake` resolves what the handshake was waiting for; a wait that is not over stays. A message
    that is waited for joins the inbox, and one that is not never does. `took` is the event that was waited for,
    if it came.
    */
    method Resolve(wait: Wait, events: seq<Event>, isDtls: bool)
      returns (now: Wait, verdict: Verdict, rest: seq<Event>, ghost took: seq<Event>)
      requires Valid()
      modifies this`inbox, this`received, this`ccsArrived, this`ccsSeen
      ensures Valid() && Progress() == old(Progress()) && flow == old(flow) && log == old(log)
      // nothing to wait for, or the application has to do something first
      ensures !ForTransport(wait) ==>
        && rest == events && verdict == (if wait == HsOk then Proceed else Return(wait == HsEarlyReturn))
        && now == (if wait == HsError then HsError else HsOk)
      ensures ForTransport(wait) ==> now == wait
      ensures old(CameEarly(wait, isDtls)) ==> verdict == Proceed && rest == events && ccsSeen && !ccsArrived
      ensures ForTransport(wait) && events == [] && !old(CameEarly(wait, isDtls)) ==>
        verdict == Return(false) && rest == events
      // one event
      ensures wait == HsFlush && events != [] && events[0] == Flushed ==> verdict == Proceed && rest == events[1..]
      ensures wait in {HsReadServerHello, HsReadMessage} && events != [] && events[0].Message? ==>
        && verdict == Proceed && rest == events[1..]
        && inbox == old(inbox) + [events[0].msg] && received == old(received) + [events[0].msg]
      ensures wait == HsReadChangeCipherSpec && isDtls && !old(ccsArrived) && events != [] && events[0].Message? ==>
        && verdict == Again && rest == events[1..]
        && inbox == old(inbox) + [events[0].msg] && received == old(received) + [events[0].msg]
      ensures wait == HsReadChangeCipherSpec && !old(CameEarly(wait, isDtls)) && events != [] &&
              events[0] == ChangeCipherSpec ==>
        verdict == Proceed && rest == events[1..] && ccsSeen
      ensures wait in {HsReadServerHello, HsReadMessage} && isDtls && !readCipher && events != [] &&
              events[0] == ChangeCipherSpec ==>
        verdict == Proceed && rest == events[1..] && ccsArrived
      // every other event ends the call, and is looked at or left
      ensures took == (if ForTransport(wait) && !old(CameEarly(wait, isDtls)) && events != [] &&
                          Takes(wait, isDtls, readCipher, events[0])
                       then [events[0]] else [])
      ensures ForTransport(wait) && !old(CameEarly(wait, isDtls)) ==> (verdict == Return(false) <==> took == [])
      ensures rest == events[|took|..] ||
              (ForTransport(wait) && verdict == Return(false) && events != [] && Answers(wait, events[0]) &&
               rest == events[1..])
      ensures ForTransport(wait) && events != [] && !old(CameEarly(wait, isDtls)) ==>
        rest == if Answers(wait, events[0]) then events[1..] else events
      // and what does not come is not there
      ensures took == [] || !took[0].Message? ==> inbox == old(inbox) && received == old(received)
      ensures took != [] && took[0].Message? ==>
        inbox == old(inbox) + [took[0].msg] && received == old(received) + [took[0].msg]
      ensures ccsSeen <==> old(ccsSeen) || (wait == HsReadChangeCipherSpec && verdict == Proceed)
      ensures ccsArrived ==>
        old(ccsArrived) || (ForMessage(wait) && verdict == Proceed && events[0] == ChangeCipherSpec)
    {
      hide TakesTurns, FinishedHonest, FlowOf, Peer.Transcribed, Peer.Exact, MessagesOf;
      now, rest, took := wait, events, [];
      if wait == HsOk {
        return now, Proceed, rest, took;
      }
      if wait == HsError {
        return now, Return(false), rest, took;
      }
      if !ForTransport(wait) {
        // the application has to do something first
        return HsOk, Return(wait == HsEarlyReturn), rest, took;
      }
      if wait == HsReadChangeCipherSpec && isDtls && ccsArrived {
        ccsArrived, ccsSeen := false, true;
        return now, Proceed, rest, took;
      }
      if events == [] || !Answers(wait, events[0]) {
        return now, Return(false), rest, took;
      }
      rest := events[1..];
      if !Takes(wait, isDtls, readCipher, events[0]) {
        return now, Return(false), rest, took;
      }
      verdict, took := Proceed, [events[0]];
      match events[0] {
        case Flushed =>
        case Message(m) =>
          Arrive(m);
          if wait == HsReadChangeCipherSpec { verdict := Again; }
        case ChangeCipherSpec =>
          if wait == HsReadChangeCipherSpec {
            ccsSeen := true;
          } else {
            // flagged for later
            ccsArrived := true;
          }
      }
    }
  }
}
