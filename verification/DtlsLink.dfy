/**
A DTLS handshake sender and receiver with an unreliable network between them, as a system of steps.

The sender queues messages and ChangeCipherSpecs, changes its write keys, and sends or resends its
flight under any MTU. The network may deliver any packet the transport took, in any order, any number
of times or never. The receiver opens a packet record by record behind its replay window and its
keys, reassembles fragments, takes messages and changes its read keys. Whatever the steps, it hands
out the messages queued, each once, in order and byte for byte.
*/
module DtlsLink {
  import opened Bytes
  import opened AeadContext
  import opened DtlsFragment
  import opened DtlsReceiver
  import opened DtlsRecord
  import opened DtlsSender
  import DtlsReplay

  // what the read buffer holds of a packet
  const READ_CAPACITY: nat := RT_HEADER_LENGTH + MAX_ENCRYPTED_LENGTH

  /** The serialized form of each message, as the sender queued it. */
  function Serialized(q: seq<Message>): (s: seq<Octets>)
    ensures |s| == |q|
    ensures forall k :: 0 <= k < |q| ==> s[k] == MessageBytes(q[k].kind, k, q[k].body)
  {
    seq(|q|, k requires 0 <= k < |q| => MessageBytes(q[k].kind, k, q[k].body))
  }

  /** What a whole assembly is handed out as. */
  function DeliveryOf(a: Assembly, k: nat): Delivery
  {
    Delivery(a.kind, a.body, MessageBytes(a.kind, k, a.body))
  }

  /** What is handed out is message `k`. */
  predicate IsMessage(m: Delivery, q: seq<Message>, k: nat)
  {
    k < |q| && m == Delivery(q[k].kind, q[k].body, MessageBytes(q[k].kind, k, q[k].body))
  }

  /** The keys both sides derive, epoch by epoch: none at first, then sound ones of one version. */
  ghost predicate KeysOk(keys: nat -> Context)
  {
    && keys(0) == NullCipher(true)
    && forall e: nat :: e > 0 ==> KeyOk(keys(e), keys(1))
  }

  ghost predicate KeyOk(c: Context, first: Context)
  {
    Sound(c) && c.aead.Some? && RecordVersion(c) == RecordVersion(first)
  }

  /** The record was made with the keys of its epoch, and says a version its reader takes. */
  ghost predicate Keyed(keys: nat -> Context, s: Sealed)
  {
    s.ctx == keys(s.epoch) && VersionOk(s.ctx, s.version)
  }

  ghost predicate AllKeyed(keys: nat -> Context, sent: set<Sealed>)
  {
    forall s :: s in sent ==> Keyed(keys, s)
  }

  lemma KeysSound(keys: nat -> Context, e: nat)
    requires KeysOk(keys)
    ensures Sound(keys(e)) && (keys(e).aead.None? <==> e == 0)
  {
    if e > 0 { assert KeyOk(keys(e), keys(1)); }
  }

  /** A record made under the live keys is keyed: a current version suits both epochs. */
  lemma MadeKeyed(keys: nat -> Context, s: Sealed, wEpoch: nat)
    requires KeysOk(keys) && s.version == RecordVersion(keys(wEpoch))
    requires RecordVersion(keys(1)) / 256 == DTLS1_VERSION_MAJOR
    requires (s.epoch == wEpoch || s.epoch + 1 == wEpoch) && s.ctx == keys(s.epoch)
    ensures Keyed(keys, s)
  {
    if wEpoch > 0 { assert KeyOk(keys(wEpoch), keys(1)); }
    if s.epoch > 0 { assert KeyOk(keys(s.epoch), keys(1)); }
  }

  /** A ChangeCipherSpec went out before any keys were changed. */
  ghost predicate SpecSent(sent: set<Sealed>)
  {
    exists s :: s in sent && s.kind == RT_CHANGE_CIPHER_SPEC && s.epoch == 0
  }

  class Link {
    const sender: Sender
    const receiver: Receiver
    const reader: RecordReader
    const keys: nat -> Context
    // the rest of the packet being read, and the records it was made of
    var readBuffer: Octets
    ghost var reading: seq<Sealed>
    // what the receiver has handed out, and the fragments it took in
    ghost var delivered: seq<Octets>
    ghost var heard: set<Octets>

    ghost function SenderHeap(): set<object>
    {
      {sender, sender.bio, sender.record, sender.record.writeSequence, sender.record.lastWriteSequence}
    }

    ghost function ReceiverHeap(): set<object>
      reads receiver
    {
      {receiver, receiver.incoming} + receiver.Repr
    }

    ghost function ReaderHeap(): set<object>
    {
      {reader, reader.bitmap}
    }

    ghost predicate Apart()
      reads receiver
    {
      && this !in SenderHeap() && this !in ReceiverHeap() && this !in ReaderHeap()
      && SenderHeap() !! ReceiverHeap() && ReaderHeap() !! ReceiverHeap() && ReaderHeap() !! SenderHeap()
    }

    ghost predicate Valid()
      reads this, SenderHeap(), ReceiverHeap(), ReaderHeap()
    {
      && Apart() && sender.Valid() && receiver.Valid() && reader.Valid()
      && InStep() && InBuffer() && InOrder() && HeardOk()
    }

    /** Both sides use the keys of the schedule; the reader is at most one ChangeCipherSpec on. */
    ghost predicate InStep()
      reads SenderHeap(), receiver`rEpoch, receiver`hasChangeCipherSpec, ReaderHeap()
    {
      && KeysOk(keys) && RecordVersion(keys(1)) / 256 == DTLS1_VERSION_MAJOR
      && sender.record.ctx == keys(sender.record.wEpoch)
      && (sender.record.wEpoch > 0 ==> sender.record.lastCtx == keys(sender.record.wEpoch - 1))
      && reader.rEpoch == receiver.rEpoch <= 1 && reader.readCtx == keys(reader.rEpoch) && !reader.closed
      && (receiver.hasChangeCipherSpec ==> reader.rEpoch == 0 && SpecSent(sender.sent))
      && (reader.rEpoch == 1 ==> SpecSent(sender.sent))
    }

    /** What is being read is the front of what is left of a packet that was sent. */
    ghost predicate InBuffer()
      reads this`readBuffer, this`reading, sender`sent
    {
      readBuffer <= Packet(reading) && Among(reading, sender.sent) && AllKeyed(keys, sender.sent)
    }

    ghost predicate InOrder()
      requires receiver.Valid()
      reads this`delivered, sender`queued, receiver, receiver.incoming, receiver.Repr
    {
      && receiver.Agrees(sender.queued) && receiver.handshakeReadSeq == |delivered|
      && delivered <= Serialized(sender.queued)
    }

    ghost predicate HeardOk()
      requires receiver.Valid()
      reads this`heard, receiver, receiver.incoming, receiver.Repr
    {
      forall t :: t in heard ==> Heard(t)
    }

    /** The fragment is in: its message has been handed out already, or its bytes are there. */
    ghost predicate Heard(text: Octets)
      requires receiver.Valid()
      reads receiver, receiver.incoming, receiver.Repr
    {
      var f := ParseFragment(text);
      f.Some? &&
      var h := f.value.header;
      h.seqnum < receiver.handshakeReadSeq ||
      (receiver.View(h.seqnum).Some? && FragmentRange(h) <= receiver.View(h.seqnum).value.covered)
    }

    constructor (script: nat -> int, mtu: nat, maxMessageLen: nat, keys: nat -> Context)
      requires KeysOk(keys) && RecordVersion(keys(1)) / 256 == DTLS1_VERSION_MAJOR
      ensures Valid() && delivered == [] && heard == {} && sender.queued == [] && sender.packets == []
      ensures this.keys == keys && reader.rEpoch == 0 && sender.record.wEpoch == 0
    {
      hide Sender.Valid, Receiver.Valid, RecordWriter.Valid, RecordReader.Valid, Receiver.View, Packet, Proper,
           Sent, Link.Valid, KeysOk, Link.Apart, Sender.InPass;
      var writer := new RecordWriter(true);
      var bio := new Bio(script);
      sender := new Sender(writer, bio, mtu);
      receiver := new Receiver(maxMessageLen);
      reader := new RecordReader(true);
      this.keys := keys;
      readBuffer, reading, delivered, heard := [], [], [], {};
      new;
      Start();
    }

    lemma Start()
      requires receiver.Repr == {} && sender.Valid() && receiver.Valid() && reader.Valid()
      requires KeysOk(keys) && RecordVersion(keys(1)) / 256 == DTLS1_VERSION_MAJOR
      requires sender.record.wEpoch == 0 && sender.record.ctx == NullCipher(true) && sender.sent == {}
      requires reader.rEpoch == 0 == receiver.rEpoch && reader.readCtx == NullCipher(true) && !reader.closed
      requires receiver.handshakeReadSeq == 0 && !receiver.hasChangeCipherSpec && forall k :: receiver.View(k) == None
      requires readBuffer == [] && reading == [] && delivered == [] && heard == {}
      ensures Valid()
    {
    }

    /** The sender queues a message for the current flight. */
    method Queue(kind: Byte, body: Octets) returns (ok: bool)
      requires Valid() && |body| < 0x100_0000 && sender.handshakeWriteSeq + 1 < U16
      modifies sender
      ensures Valid() && delivered == old(delivered) && heard == old(heard)
      ensures sender.queued == if ok then old(sender.queued) + [Message(kind, body)] else old(sender.queued)
    {
      hide Sender.Valid, Receiver.Valid, RecordWriter.Valid, RecordReader.Valid, Receiver.View, Packet, Proper,
           Sent, KeysOk, SpecSent, Among, AllKeyed, HeardOk;
      ghost var m := Message(kind, body);
      var data := sender.BuildMessage(kind, body);
      ok := sender.AddOutgoing(false, data, m);
      if ok {
        AgreesMore(m);
      }
    }

    /** More messages to agree with do not matter to what has been received. */
    lemma AgreesMore(m: Message)
      requires receiver.Valid() && (exists q :: receiver.Agrees(q) && sender.queued == q + [m])
      ensures receiver.Agrees(sender.queued)
    {
      var q :| receiver.Agrees(q) && sender.queued == q + [m];
      forall k | receiver.View(k).Some? ensures PartOf(receiver.View(k).value, sender.queued, k) {
        assert PartOf(receiver.View(k).value, q, k);
      }
    }

    /** `dtls1_add_change_cipher_spec`. */
    method QueueChangeCipherSpec() returns (ok: bool)
      requires Valid() && sender.handshakeWriteSeq + 1 < U16
      modifies sender
      ensures Valid() && delivered == old(delivered) && heard == old(heard) && sender.queued == old(sender.queued)
    {
      hide Sender.Valid, Receiver.Valid, RecordWriter.Valid, RecordReader.Valid, Receiver.View, Packet, Proper, Sent;
      ok := sender.AddOutgoing(true, [], Message(0, []));
    }

    /** The sender changes to the next keys; what is queued of the flight keeps its epoch. */
    method ChangeWriteKeys()
      requires Valid() && sender.record.wEpoch + 1 < EPOCHS
      modifies sender.record, sender.record.writeSequence, sender.record.lastWriteSequence
      ensures Valid() && delivered == old(delivered) && heard == old(heard)
      ensures sender.record.wEpoch == old(sender.record.wEpoch) + 1
    {
      hide Sender.Valid, Receiver.Valid, RecordWriter.Valid, RecordReader.Valid, Receiver.View, Packet, Proper, Sent;
      KeysSound(keys, sender.record.wEpoch + 1);
      sender.SetWriteState(keys(sender.record.wEpoch + 1));
    }

    /** The application sets another MTU. */
    method SetMtu(mtu: nat) returns (ok: bool)
      requires Valid()
      modifies sender`mtu
      ensures Valid() && delivered == old(delivered) && heard == old(heard)
      ensures ok <==> mtu >= MIN_MTU
    {
      hide Receiver.Valid, RecordReader.Valid, RecordWriter.Valid, Receiver.View, Packet, Proper, Sent, Sender.Valid,
           Link.InBuffer, Link.InOrder, Link.HeardOk, KeysOk, SpecSent;
      ok := sender.SetMtu(mtu);
    }

    /** The sender sends or resends what it can of its flight; when it is out, a complete pass has gone out. */
    method Send(rewind: bool, shutDown: bool, random: Random, mayQuery: bool, queried: int, flushed: bool)
      returns (r: FlightResult)
      requires Valid() && RandomBytes(random)
      modifies SenderHeap()
      ensures Valid() && delivered == old(delivered) && heard == old(heard)
      ensures sender.queued == old(sender.queued) && old(sender.packets) <= sender.packets
      ensures rewind || old(sender.InPass()) ==>
        sender.InPass() || (r == FlightFailed && sender.SomeStuck(sender.mtu))
      ensures r in {FlightDone, FlightUnflushed} ==> sender.Pos() == Position(|sender.outgoing|, 0)
      ensures shutDown ==> r == FlightFailed && sender.packets == old(sender.packets)
    {
      hide Sender.Valid, Receiver.Valid, RecordWriter.Valid, RecordReader.Valid, Receiver.View, Packet, Proper,
           Sent, Ledger, HeardOk, InOrder, KeysOk, Serialized;
      ghost var before := sender.sent;
      r := sender.Flush(rewind, shutDown, random, mayQuery, queried, flushed);
      forall s | s in sender.sent ensures Keyed(keys, s) {
        if s !in before { MadeKeyed(keys, s, sender.record.wEpoch); }
      }
    }

    /** The network delivers a packet; the read buffer takes one at a time, and no more than it can hold. */
    method Receive(i: nat) returns (ok: bool)
      requires Valid() && i < |sender.bio.sent|
      modifies this`readBuffer, this`reading
      ensures Valid() && delivered == old(delivered) && heard == old(heard)
      ensures ok <==> old(readBuffer) == []
      ensures ok && |sender.bio.sent[i]| <= READ_CAPACITY ==>
                readBuffer == sender.bio.sent[i] == Packet(reading) && reading == sender.packets[i]
    {
      hide Packet, Receiver.Valid, RecordReader.Valid, RecordWriter.Valid, Receiver.View, Proper;
      if |readBuffer| > 0 {
        return false;
      }
      var packet := sender.bio.sent[i];
      readBuffer := if |packet| > READ_CAPACITY then packet[..READ_CAPACITY] else packet;
      reading := sender.packets[i];
      assert Among(sender.packets[i], sender.sent);
      return true;
    }

    lemma SentOk(s: Sealed)
      requires sender.Valid() && s in sender.sent
      ensures RecordOk(sender.queued, s)
    {
    }

    /** `dtls_open_record` on the front of the read buffer: nothing comes out but what was sealed. */
    method OpenFront() returns (got: Opened)
      requires Valid() && readBuffer != []
      modifies this`readBuffer, this`reading, reader`accepted, reader.bitmap
      ensures Valid() && old(reading) != [] && old(reading)[0] in sender.sent && reading == old(reading)[1..]
      ensures |readBuffer| < |old(readBuffer)|
      ensures got == Discard || got == Error || got.Success?
      ensures got.Success? <==> old(reading != [] && CanRead(reader, readBuffer, reading[0]))
      ensures got.Success? ==>
        && got == Success(old(reading)[0].kind, old(reading)[0].text) && old(reading)[0].epoch == reader.rEpoch
        && readBuffer == old(readBuffer)[|Wire(old(reading)[0])|..]
    {
      hide Sender.Valid, Receiver.Valid, RecordReader.Valid, Receiver.View, InOrder, HeardOk, Proper, Wire, Packet,
           Correct, WellFormed, KeysOk, SpecSent;
      FrontRecord(reading, readBuffer);
      ghost var s := reading[0];
      KeysSound(keys, s.epoch);
      assert s in sender.sent && Keyed(keys, s);
      SentOk(s);
      var consumed;
      got, consumed := ReadRecord(reader, readBuffer, s);
      readBuffer := readBuffer[consumed..];
      reading := reading[1..];
      assert InBuffer();
    }

    /**
    `dtls1_open_handshake` on the front of the read buffer. Whatever packet it comes from, it never
    does harm. A record the record layer lets through is refused only if it is an encrypted
    ChangeCipherSpec, if its fragment is out of place, or if a message is longer than is allowed; and
    if it is not refused, its fragment has been heard.
    */
    method Open() returns (r: OpenResult)
      requires Valid()
      modifies this`readBuffer, this`reading, this`heard, ReceiverHeap(), reader`accepted, reader.bitmap
      ensures Valid() && delivered == old(delivered) && fresh(receiver.Repr - old(receiver.Repr))
      ensures r == OpenPartial <==> old(readBuffer) == []
      ensures r != OpenPartial ==> old(reading) != [] && |readBuffer| < |old(readBuffer)|
      ensures r != OpenPartial && !old(FrontReadable()) ==> r in {OpenDiscard, OpenError} && heard == old(heard)
      ensures r != OpenPartial && old(FrontReadable()) ==>
        readBuffer == old(readBuffer)[|Wire(old(reading)[0])|..] && reading == old(reading)[1..]
      ensures r != OpenPartial && old(FrontReadable()) && old(reading)[0].kind == RT_CHANGE_CIPHER_SPEC ==>
        && r == (if reader.rEpoch == 0 then OpenSuccess else OpenError) && heard == old(heard)
        && receiver.hasChangeCipherSpec == (old(receiver.hasChangeCipherSpec) || r == OpenSuccess)
      ensures r != OpenPartial && old(FrontReadable()) && old(reading)[0].kind == RT_HANDSHAKE ==>
        && (Welcome(old(reading)[0].text) ==> r == OpenSuccess)
        && (r == OpenSuccess && InWindow(old(reading)[0].text) ==> heard == old(heard) + {old(reading)[0].text})
      ensures old(heard) <= heard
    {
      hide Sender.Valid, RecordReader.Valid, RecordWriter.Valid, Packet, Wire, Proper, Correct, WellFormed,
           Receiver.Valid, Receiver.View, InOrder, HeardOk;
      if |readBuffer| == 0 {
        return OpenPartial;
      }
      FrontRecord(reading, readBuffer);
      ghost var s := reading[0];
      var got := OpenFront();
      match got
      case Success(kind, out) => r := Take(kind, out, s);
      case Discard => r := OpenDiscard;
      case _ => r := OpenError;
    }

    /** The front of the read buffer is a whole record that the record layer lets through. */
    ghost predicate FrontReadable()
      requires reader.Valid()
      reads this`readBuffer, this`reading, reader, reader.bitmap
    {
      reading != [] && CanRead(reader, readBuffer, reading[0])
    }

    /** The record's first fragment belongs to a message that is being read or has been. */
    ghost predicate InWindow(text: Octets)
      reads this`delivered
    {
      ParseFragment(text).Some? && ParseFragment(text).value.header.seqnum < |delivered| + MAX_HANDSHAKE_FLIGHT
    }

    /** The record's fragments are not out of place, and no message queued is longer than is allowed. */
    ghost predicate Welcome(text: Octets)
      reads this`delivered, sender`queued, reader`rEpoch
    {
      InPlace(text, |delivered|, reader.rEpoch == 1) && LongestOf(sender.queued) <= receiver.maxMessageLen
    }

    /** The part of `dtls1_open_handshake` behind the record layer. */
    method Take(kind: Byte, text: Octets, ghost s: Sealed) returns (r: OpenResult)
      requires Valid() && s in sender.sent && kind == s.kind && text == s.text && s.epoch == reader.rEpoch
      modifies this`heard, ReceiverHeap()
      ensures Valid() && fresh(receiver.Repr - old(receiver.Repr))
      ensures kind == RT_CHANGE_CIPHER_SPEC ==>
        && r == (if reader.rEpoch == 0 then OpenSuccess else OpenError) && heard == old(heard)
        && receiver.hasChangeCipherSpec == (old(receiver.hasChangeCipherSpec) || r == OpenSuccess)
      ensures kind == RT_HANDSHAKE ==>
        && (Welcome(text) ==> r == OpenSuccess)
        && (r == OpenSuccess && InWindow(text) ==> heard == old(heard) + {text})
      ensures r in {OpenSuccess, OpenError} && old(heard) <= heard
    {
      hide Sender.Valid, RecordReader.Valid, Receiver.Valid, Packet, Proper, InBuffer, Serialized, KeysOk, InPlace,
           LongestOf;
      receiver.NotItsOwn();
      SentOk(s);
      KeysSound(keys, reader.rEpoch);
      r := receiver.OpenHandshake(kind, text, reader.readCtx.aead.None?, sender.queued);
      assert HeardOk();
      if r == OpenSuccess && kind == RT_HANDSHAKE && InWindow(text) {
        Hear(text);
      }
    }

    /** A fragment that is in has been heard. */
    ghost method Hear(text: Octets)
      requires Valid() && Heard(text)
      modifies this`heard
      ensures Valid() && heard == old(heard) + {text}
    {
      hide Sender.Valid, RecordReader.Valid, Receiver.Valid, Packet, Proper, Serialized, KeysOk, Link.Heard,
           Link.InBuffer, Link.InStep, Link.InOrder;
      heard := heard + {text};
    }

    /**
    `dtls1_open_change_cipher_spec` on a flag that has been set, and `dtls1_set_read_state`: refused if
    handshake data is left over.
    */
    method ChangeReadKeys() returns (ok: bool)
      requires Valid()
      modifies receiver`hasChangeCipherSpec, receiver`rEpoch, reader`rEpoch, reader`readCtx, reader.bitmap
      ensures Valid() && delivered == old(delivered) && heard == old(heard)
      ensures ok <==> old(receiver.hasChangeCipherSpec && NothingLeft())
      ensures reader.rEpoch == if ok then 1 else old(reader.rEpoch)
      ensures !receiver.hasChangeCipherSpec
    {
      hide Sender.Valid, Receiver.Valid, RecordReader.Valid, Receiver.View, Packet, Proper, InBuffer, Serialized,
           KeysOk;
      if !receiver.hasChangeCipherSpec {
        return false;
      }
      receiver.SetChangeCipherSpec(false);
      ok := NextReadKeys();
    }

    /** `dtls1_set_read_state`. */
    method NextReadKeys() returns (ok: bool)
      requires Valid() && !receiver.hasChangeCipherSpec && reader.rEpoch == 0 && SpecSent(sender.sent)
      modifies receiver`rEpoch, reader`rEpoch, reader`readCtx, reader.bitmap
      ensures Valid() && (ok <==> old(NothingLeft())) && reader.rEpoch == if ok then 1 else 0
    {
      hide Sender.Valid, Receiver.Valid, RecordReader.Valid, Receiver.View, Packet, Proper, InBuffer, Serialized,
           KeysOk;
      ok := receiver.SetReadState();
      if ok {
        KeysSound(keys, 1);
        reader.NextEpoch(keys(reader.rEpoch + 1));
      }
    }

    /** Nothing but the current message is buffered, and that only if it has been looked at. */
    ghost predicate NothingLeft()
      requires receiver.Valid()
      reads receiver, receiver.incoming, receiver.Repr
    {
      forall k: nat :: receiver.View(k).Some? ==> receiver.hasMessage && k == receiver.handshakeReadSeq
    }

    /** The receiver takes its next message, if it is whole. */
    method Read() returns (m: Option<Delivery>)
      requires Valid() && receiver.handshakeReadSeq + 1 < U16
      modifies this`delivered, receiver`handshakeReadSeq, receiver`hasMessage, receiver.incoming
      ensures Valid() && heard == old(heard)
      ensures m.Some? <==> old(NextIsWhole())
      ensures m.Some? ==>
        IsMessage(m.value, sender.queued, |old(delivered)|) && delivered == old(delivered) + [m.value.raw]
      ensures m.None? ==> delivered == old(delivered)
      // once every piece of some complete pass over a flight has been heard, the message is there
      ensures old(SomePassHeard()) ==> m.Some?
    {
      hide Sender.Valid, RecordReader.Valid, Receiver.Valid, InStep, InBuffer, InOrder, HeardOk, SomePassHeard,
           IsMessage, NextIsWhole;
      if SomePassHeard() { SomePassIsWhole(); }
      m := Peek();
      if m.Some? {
        Deliver(m.value);
      }
    }

    /** `dtls1_get_message`. */
    method Peek() returns (m: Option<Delivery>)
      requires Valid()
      modifies receiver`hasMessage
      ensures Valid() && (m.Some? ==> receiver.hasMessage)
      ensures m.Some? <==> old(NextIsWhole())
      ensures m.Some? ==>
        && NextIsWhole()
        && m.value == DeliveryOf(receiver.View(|delivered|).value, |delivered|)
    {
      hide Sender.Valid, RecordReader.Valid, Packet, Proper, InStep, InBuffer, Receiver.Valid, Receiver.View,
           Serialized;
      m := receiver.GetMessage();
    }

    /** All of the next message is in. */
    ghost predicate NextIsWhole()
      requires receiver.Valid()
      reads this`delivered, receiver, receiver.incoming, receiver.Repr
    {
      receiver.View(|delivered|).Some? && IsWhole(receiver.View(|delivered|).value)
    }

    /** Message `j` of a flight is the next one to hand out, and its pieces in a complete pass have been heard. */
    ghost predicate PassHeard(flight: seq<Outgoing>, numbers: seq<nat>, pieces: seq<Piece>, j: nat)
      reads this`delivered, this`heard, sender`queued
    {
      && FlightOk(sender.queued, flight, numbers) && j < |flight| && !flight[j].isCcs && numbers[j] == |delivered|
      && Walk(flight, Position(0, 0), pieces) == Some(Position(|flight|, 0))
      && forall x :: x in pieces && x.index == j ==> PieceHeard(sender.queued, |delivered|, x, heard)
    }

    ghost predicate SomePassHeard()
      reads this`delivered, this`heard, sender`queued
    {
      exists flight, numbers, pieces, j :: PassHeard(flight, numbers, pieces, j)
    }

    lemma SomePassIsWhole()
      requires Valid() && SomePassHeard()
      ensures NextIsWhole()
    {
      var flight, numbers, pieces, j :| PassHeard(flight, numbers, pieces, j);
      HeardPassIsWhole(flight, numbers, pieces, j);
    }

    lemma HeardPassIsWhole(flight: seq<Outgoing>, numbers: seq<nat>, pieces: seq<Piece>, j: nat)
      requires Valid() && PassHeard(flight, numbers, pieces, j)
      ensures NextIsWhole()
    {
      hide Sender.Valid, Receiver.Valid, Receiver.View, RecordReader.Valid, Packet, Proper, Walk, InStep, InBuffer,
           FragmentText;
      var k, q := |delivered|, sender.queued;
      QueuedShort();
      SerializedMessage(q[k], k, flight[j].data);
      WalkVisits(flight, Position(0, 0), pieces, j);
      forall x | x in pieces && x.index == j
        ensures receiver.View(k).Some? && Range(x.off, x.off + x.len) <= receiver.View(k).value.covered
      {
        assert PieceHeard(q, k, x, heard);
        FragmentTextGenuine(q, k, x);
        assert Heard(FragmentText(q, k, x));
      }
      var x :| x in pieces && x.index == j;
      assert receiver.View(k).Some? && PartOf(receiver.View(k).value, q, k);
      ReceivedPassIsWhole(flight, pieces, j, receiver.View(k).value);
    }

    lemma QueuedShort()
      requires sender.Valid()
      ensures |sender.queued| < U16
    {
    }

    /**
    The flight as it was sent in a complete pass: if the records that carry pieces of message `j` have been
    heard, so has the message, whatever became of the other records.
    */
    lemma SentPassHeard(j: nat)
      requires Valid() && sender.InPass() && sender.Pos() == Position(|sender.outgoing|, 0)
      requires j < |sender.outgoing| && !sender.outgoing[j].isCcs && sender.numbers[j] == |delivered|
      requires forall i :: 0 <= i < |sender.pass| && sender.pass[i].index == j ==>
        && i < |Flat(sender.packets[sender.passStart..])|
        && Flat(sender.packets[sender.passStart..])[i].text in heard
      ensures PassHeard(sender.outgoing, sender.numbers, sender.pass, j)
    {
      hide Receiver.Valid, RecordReader.Valid, Packet, Proper, Walk, InStep, InBuffer, InOrder, HeardOk;
      var rs := Flat(sender.packets[sender.passStart..]);
      forall i | 0 <= i < |sender.pass| && sender.pass[i].index == j
        ensures PieceHeard(sender.queued, |delivered|, sender.pass[i], heard)
      {
        assert CarriedBy(sender.queued, sender.outgoing, sender.numbers, sender.pass[i], rs[i]);
        assert rs[i] in rs;
      }
    }

    /** The message at the front is handed out, and the window moves on. */
    method Deliver(m: Delivery)
      requires Valid() && receiver.hasMessage && receiver.handshakeReadSeq + 1 < U16
      requires NextIsWhole()
      requires m == DeliveryOf(receiver.View(|delivered|).value, |delivered|)
      modifies this`delivered, receiver`handshakeReadSeq, receiver`hasMessage, receiver.incoming
      ensures Valid() && delivered == old(delivered) + [m.raw] && IsMessage(m, sender.queued, |old(delivered)|)
    {
      hide Sender.Valid, RecordReader.Valid, Packet, Proper, InBuffer, Receiver.Valid, Link.InStep, ParseFragment;
      ghost var k := |delivered|;
      WholeIsSent(receiver.View(k).value, sender.queued, k);
      assert delivered + [m.raw] <= Serialized(sender.queued);
      receiver.NextMessage();
      delivered := delivered + [m.raw];
    }
  }

  /** The record at the front of a packet is whole, has the reader's keys, and is new and short enough. */
  ghost predicate CanRead(reader: RecordReader, packet: Octets, s: Sealed)
    requires reader.Valid()
    reads reader, reader.bitmap
  {
    && Wire(s) <= packet && s.epoch == reader.rEpoch
    && CiphertextLen(s.ctx, |s.text|) <= MAX_ENCRYPTED_LENGTH && |s.text| <= MAX_PLAIN_LENGTH
    && !DtlsReplay.Stale(reader.bitmap.seen, s.epoch * SEQUENCES + s.n)
  }

  /** A record that fits a packet of 2^14 bytes and a header is never too long for its reader. */
  lemma ShortEnough(s: Sealed, mtu: nat)
    requires Sound(s.ctx) && |Wire(s)| <= mtu <= RT_HEADER_LENGTH + MAX_PLAIN_LENGTH
    ensures CiphertextLen(s.ctx, |s.text|) <= MAX_ENCRYPTED_LENGTH && |s.text| <= MAX_PLAIN_LENGTH
  {
    CiphertextSize(s);
    assert |Wire(s)| == RT_HEADER_LENGTH + |Ciphertext(s)|;
  }

  /** A sealed record, or what is left of it, at the front of a packet: what comes out is its text, or nothing. */
  method ReadRecord(reader: RecordReader, packet: Octets, ghost s: Sealed) returns (got: Opened, consumed: nat)
    requires reader.Valid() && !reader.closed && packet != [] && Wire(s) != []
    requires Wire(s) <= packet || packet < Wire(s)
    requires Sound(s.ctx) && VersionOk(s.ctx, s.version) && (s.epoch == reader.rEpoch ==> reader.readCtx == s.ctx)
    requires s.kind != RT_ALERT
    modifies reader`accepted, reader.bitmap
    ensures reader.Valid() && 0 < consumed <= |packet|
    ensures consumed == |packet| || (Wire(s) <= packet && consumed == |Wire(s)|)
    ensures got == Discard || got == Error || got.Success?
    ensures got.Success? <==> old(CanRead(reader, packet, s))
    ensures got.Success? ==> got == Success(s.kind, s.text) && consumed == |Wire(s)|
  {
    hide Proper, Correct, WellFormed, Wire, OpenBytes, ParseRecord, Ciphertext, Number, VersionOk, Sound, CanRead,
         RecordReader.Valid, RecordReader.Acceptable;
    FrontOpens(reader, packet, s);
    got, consumed := reader.OpenRecord(packet);
  }

  /** What `OpenRecord` finds at the front: the record if that is whole, and otherwise nothing. */
  lemma FrontOpens(reader: RecordReader, packet: Octets, s: Sealed)
    requires reader.Valid() && Wire(s) != [] && (Wire(s) <= packet || packet < Wire(s))
    requires Sound(s.ctx) && VersionOk(s.ctx, s.version) && (s.epoch == reader.rEpoch ==> reader.readCtx == s.ctx)
    ensures ParseRecord(packet).Some? ==>
      && Wire(s) <= packet
      && ParseRecord(packet).value ==
         Parsed(s.kind, s.version, Number(s.epoch, s.n), Ciphertext(s), packet[|Wire(s)|..])
    ensures reader.Acceptable(packet) ==> ParseRecord(packet).Some? && reader.readCtx == s.ctx
    ensures reader.Acceptable(packet) ==> VersionOk(reader.readCtx, s.version)
    ensures reader.Acceptable(packet) && |s.text| <= MAX_PLAIN_LENGTH <==> CanRead(reader, packet, s)
    ensures OpenBytes(s.ctx, s.kind, s.version, Number(s.epoch, s.n), Ciphertext(s)) == Some(s.text)
  {
    hide Proper, Correct, WellFormed, Wire, OpenBytes, ParseRecord, Ciphertext, Number, VersionOk,
         RecordReader.Valid, DtlsReplay.Stale, RecordReader.Acceptable;
    if Wire(s) <= packet {
      assert packet == Wire(s) + packet[|Wire(s)|..];
      WholeFront(reader, s, packet[|Wire(s)|..]);
    } else {
      CutOffRecord(s, packet);
      CutOffRefused(reader, packet);
      WholeFront(reader, s, []);
    }
  }

  lemma CutOffRefused(reader: RecordReader, packet: Octets)
    requires reader.Valid() && ParseRecord(packet) == None
    ensures !reader.Acceptable(packet)
  {
  }

  /** What is left of a packet begins with a record, or with what is left of one. */
  lemma FrontRecord(reading: seq<Sealed>, buffer: Octets)
    requires buffer != [] && buffer <= Packet(reading)
    ensures reading != [] && Wire(reading[0]) != []
    ensures if Wire(reading[0]) <= buffer then buffer[|Wire(reading[0])|..] <= Packet(reading[1..])
            else buffer < Wire(reading[0])
  {
  }

  /** What the record layer makes of a whole record at the front. */
  lemma WholeFront(reader: RecordReader, s: Sealed, rest: Octets)
    requires reader.Valid() && Sound(s.ctx) && VersionOk(s.ctx, s.version)
    requires s.epoch == reader.rEpoch ==> reader.readCtx == s.ctx
    ensures var p := ParseRecord(Wire(s) + rest);
            && (p.Some? ==> p.value == Parsed(s.kind, s.version, Number(s.epoch, s.n), Ciphertext(s), rest))
            && (p.Some? <==> CiphertextLen(s.ctx, |s.text|) <= MAX_ENCRYPTED_LENGTH)
    ensures reader.Acceptable(Wire(s) + rest) <==>
            && s.epoch == reader.rEpoch && CiphertextLen(s.ctx, |s.text|) <= MAX_ENCRYPTED_LENGTH
            && !DtlsReplay.Stale(reader.bitmap.seen, s.epoch * SEQUENCES + s.n)
    ensures OpenBytes(s.ctx, s.kind, s.version, Number(s.epoch, s.n), Ciphertext(s)) == Some(s.text)
  {
    WireParses(s, rest);
    OpenUndoesSeal(s.ctx, s.kind, s.version, Number(s.epoch, s.n), s.random, s.text);
    NumberValue(s.epoch, s.n);
    if s.epoch == reader.rEpoch && CiphertextLen(s.ctx, |s.text|) <= MAX_ENCRYPTED_LENGTH {
      SealedRecordAccepted(reader, s, rest);
    }
  }

  predicate PieceHeard(q: seq<Message>, k: nat, x: Piece, heard: set<Octets>)
  {
    k < |q| && x.off + x.len <= |q[k].body| && FragmentText(q, k, x) in heard
  }

  /** A walk has a piece of every message it passes, empty ones too. */
  lemma {:induction false} WalkVisits(flight: seq<Outgoing>, p: Position, pieces: seq<Piece>, j: nat)
    requires Walk(flight, p, pieces).Some? && p.written <= j < Walk(flight, p, pieces).value.written
    ensures exists x :: x in pieces && x.index == j
    decreases |pieces|
  {
    if p.written == j {
      assert pieces[0] in pieces;
    } else {
      WalkVisits(flight, After(flight, p, pieces[0]), pieces[1..], j);
      var x :| x in pieces[1..] && x.index == j;
      assert x in pieces;
    }
  }

  /**
  If every piece of message `j` in a complete pass has been received, whatever else was and in
  whatever order, the message is whole.
  */
  lemma {:induction false} ReceivedPassIsWhole(flight: seq<Outgoing>, pieces: seq<Piece>, j: nat, a: Assembly)
    requires Walk(flight, Position(0, 0), pieces) == Some(Position(|flight|, 0)) && j < |flight|
    requires a.msgLen == |BodyOf(flight[j])| && forall i :: i in a.covered ==> i < a.msgLen
    requires forall x :: x in pieces && x.index == j ==> Range(x.off, x.off + x.len) <= a.covered
    ensures IsWhole(a)
  {
    forall b: nat | b < a.msgLen ensures b in a.covered {
      CompletePass(flight, pieces, j, b);
      CopyExists(pieces, j, b);
      var x :| x in pieces && Holds(x, j, b);
      assert b in Range(x.off, x.off + x.len);
    }
    assert forall i: nat :: i in a.covered <==> i in Range(0, a.msgLen);
  }

  lemma {:induction false} CopyExists(pieces: seq<Piece>, j: nat, b: nat)
    requires Copies(pieces, j, b) > 0
    ensures exists x :: x in pieces && Holds(x, j, b)
  {
    if Holds(pieces[0], j, b) {
      assert pieces[0] in pieces;
    } else {
      CopyExists(pieces[1..], j, b);
      var x :| x in pieces[1..] && Holds(x, j, b);
      assert x in pieces;
    }
  }
}
