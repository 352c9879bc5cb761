/**
Runs of a DTLS sender at the limits of its MTU. An application may set any MTU from 228 on, and with one
above 2^14 a sender can make records that no reader takes, or lose records that it counts as sent.
*/
module DtlsLimits {
  import opened Bytes
  import opened AeadContext
  import opened DtlsFragment
  import opened DtlsReceiver
  import opened DtlsRecord
  import opened DtlsSender

  const SOME_KIND: Byte := 1

  /** The flight is these messages, queued in epoch 0. */
  predicate AllQueued(q: seq<Message>, flight: seq<Outgoing>, numbers: seq<nat>, bodies: seq<Octets>)
  {
    && |q| == |flight| == |numbers| == |bodies|
    && forall i :: 0 <= i < |bodies| ==>
         && q[i] == Message(SOME_KIND, bodies[i]) && numbers[i] == i
         && !flight[i].isCcs && flight[i].epoch == 0 && BodyOf(flight[i]) == bodies[i]
  }

  lemma OneMoreQueued(q: seq<Message>, flight: seq<Outgoing>, numbers: seq<nat>, bodies: seq<Octets>, body: Octets)
    requires AllQueued(q, flight, numbers, bodies) && |body| < 0x100_0000 && |q| < U16
    ensures AllQueued(q + [Message(SOME_KIND, body)], flight + [Outgoing(MessageBytes(SOME_KIND, |q|, body), 0, false)],
                      numbers + [|q|], bodies + [body])
  {
    SerializedMessage(Message(SOME_KIND, body), |q|, MessageBytes(SOME_KIND, |q|, body));
  }

  /** Nothing of the flight has been sent, there are no keys yet, and the transport takes every packet. */
  ghost predicate Begun(s: Sender, mtu: nat, bodies: seq<Octets>)
    reads s, s.bio, s.record, s.record.writeSequence, s.record.lastWriteSequence
  {
    && s.Valid() && s.InPass() && s.packets == [] && s.Pos() == Position(0, 0) && s.mtu == mtu && !s.outgoingComplete
    && s.record.wEpoch == 0 && s.record.ctx == s.record.lastCtx == NullCipher(true)
    && s.record.Next(CurrentEpoch) == 0 == s.record.Next(PreviousEpoch)
    && AllQueued(s.queued, s.outgoing, s.numbers, bodies)
    && forall n: nat :: s.bio.script(n) > 0
  }

  /** A new sender queues a flight. */
  method Begin(mtu: nat, bodies: seq<Octets>) returns (s: Sender)
    requires |bodies| <= MAX_HANDSHAKE_FLIGHT && forall i :: 0 <= i < |bodies| ==> |bodies[i]| < 0x100_0000
    ensures fresh(s) && fresh(s.record) && fresh(s.record.writeSequence) && fresh(s.record.lastWriteSequence)
    ensures fresh(s.bio) && Begun(s, mtu, bodies)
  {
    hide Sender.Valid, Sender.InPass;
    var writer := new RecordWriter(true);
    var bio := new Bio(_ => 1);
    s := new Sender(writer, bio, mtu);
    for i := 0 to |bodies|
      invariant Begun(s, mtu, bodies[..i])
    {
      Queue(s, mtu, bodies[..i], bodies[i]);
      assert bodies[..i + 1] == bodies[..i] + [bodies[i]];
    }
    assert bodies[..|bodies|] == bodies;
  }

  method Queue(s: Sender, mtu: nat, ghost bodies: seq<Octets>, body: Octets)
    requires Begun(s, mtu, bodies) && |bodies| < MAX_HANDSHAKE_FLIGHT && |body| < 0x100_0000
    modifies s
    ensures Begun(s, mtu, bodies + [body])
  {
    hide Sender.InPass, Sent, AllOk, FlightOk, RecordWriter.Valid, AllQueued, MessageBytes;
    OneMoreQueued(s.queued, s.outgoing, s.numbers, bodies, body);
    assert |s.outgoing| == |bodies| == |s.queued| by { QueuedCount(s.queued, s.outgoing, s.numbers, bodies); }
    var data := s.BuildMessage(SOME_KIND, body);
    var ok := s.AddOutgoing(false, data, Message(SOME_KIND, body));
  }

  lemma QueuedCount(q: seq<Message>, flight: seq<Outgoing>, numbers: seq<nat>, bodies: seq<Octets>)
    requires AllQueued(q, flight, numbers, bodies)
    ensures |q| == |flight| == |numbers| == |bodies|
  {
  }

  /** What a record without keys has of message `j`, if it begins with it: as much as there is room for. */
  lemma BeginsMessage(q: seq<Message>, flight: seq<Outgoing>, numbers: seq<nat>, bodies: seq<Octets>, j: nat,
                      room: nat, x: Piece, r: Sealed)
    requires AllQueued(q, flight, numbers, bodies) && j < |bodies| && r.ctx == NullCipher(true)
    requires NextPiece(q, flight, numbers, Position(j, 0), RT_HEADER_LENGTH, room, x, r.text)
    ensures x == Piece(j, 0, x.len) && |r.text| == HM_HEADER_LENGTH + x.len < U16
    ensures x.len == if |bodies[j]| + HM_HEADER_LENGTH + RT_HEADER_LENGTH > room
                     then room - HM_HEADER_LENGTH - RT_HEADER_LENGTH else |bodies[j]|
    ensures |Packet([r])| == RT_HEADER_LENGTH + |r.text|
  {
    CiphertextSize(r);
    PacketOne(r);
  }

  /** The first record of a packet, and where it leads. */
  lemma FirstRecord(s: Sender, bodies: seq<Octets>, made: seq<Sealed>, pieces: seq<Piece>)
    requires |s.outgoing| == |s.numbers| && AllQueued(s.queued, s.outgoing, s.numbers, bodies) && bodies != []
    requires s.record.wEpoch == 0 && s.record.ctx == NullCipher(true)
    requires s.Greedy(made, pieces, s.mtu) && s.OnTheWay(Position(0, 0), made, pieces) && made != []
    requires |bodies[0]| + HM_HEADER_LENGTH + RT_HEADER_LENGTH <= s.mtu
    ensures pieces[0] == Piece(0, 0, |bodies[0]|) && |made[0].text| == HM_HEADER_LENGTH + |bodies[0]|
    ensures |Packet([made[0]])| == RT_HEADER_LENGTH + |made[0].text| && made[0].ctx == NullCipher(true)
    ensures Walk(s.outgoing, Position(1, 0), pieces[1..]) == Some(s.Pos()) && |made| == |pieces|
  {
    hide Packet, NextPiece, FragmentText, RecordVersion, RecordOk, CarriedBy;
    NothingYet(s.queued, s.outgoing, s.numbers, Position(0, 0));
    assert s.TookAll(made, pieces, s.mtu, 0) && Continues(s.outgoing, Position(0, 0), pieces[0]);
    assert s.record.Made(made[0]) && made[..0] == [];
    BeginsMessage(s.queued, s.outgoing, s.numbers, bodies, 0, s.mtu, pieces[0], made[0]);
  }

  /** A second record has what fits behind the first. */
  lemma SecondRecord(s: Sender, bodies: seq<Octets>, made: seq<Sealed>, pieces: seq<Piece>)
    requires |s.outgoing| == |s.numbers| && AllQueued(s.queued, s.outgoing, s.numbers, bodies) && |bodies| > 1
    requires s.record.wEpoch == 0 && s.record.ctx == NullCipher(true)
    requires s.Greedy(made, pieces, s.mtu) && s.OnTheWay(Position(0, 0), made, pieces) && |made| > 1
    requires |bodies[0]| + HM_HEADER_LENGTH + RT_HEADER_LENGTH <= s.mtu
    ensures |Packet([made[0]])| == |bodies[0]| + HM_HEADER_LENGTH + RT_HEADER_LENGTH
    ensures |made[1].text| < U16
    ensures var room := s.mtu - |Packet([made[0]])| - HM_HEADER_LENGTH - RT_HEADER_LENGTH;
            |made[1].text| == HM_HEADER_LENGTH + if |bodies[1]| > room then room else |bodies[1]|
  {
    hide Packet, NextPiece, FragmentText, RecordVersion, RecordOk, CarriedBy;
    FirstRecord(s, bodies, made, pieces);
    assert s.TookAll(made, pieces, s.mtu, 1) && Continues(s.outgoing, Position(1, 0), pieces[1]);
    assert made[..1] == [made[0]] && s.record.Made(made[1]);
    BeginsMessage(s.queued, s.outgoing, s.numbers, bodies, 1, s.mtu - |Packet([made[0]])|, pieces[1], made[1]);
  }

  /** The whole flight in one record. */
  lemma OnlyRecord(s: Sender, body: Octets, made: seq<Sealed>, pieces: seq<Piece>)
    requires |s.outgoing| == |s.numbers| && AllQueued(s.queued, s.outgoing, s.numbers, [body])
    requires s.record.wEpoch == 0 && s.record.ctx == NullCipher(true)
    requires s.Greedy(made, pieces, s.mtu) && s.OnTheWay(Position(0, 0), made, pieces) && Packet(made) != []
    requires |body| + HM_HEADER_LENGTH + RT_HEADER_LENGTH <= s.mtu
    ensures made == [made[0]] && |made[0].text| == HM_HEADER_LENGTH + |body| && made[0].ctx == NullCipher(true)
    ensures s.Pos() == Position(1, 0)
  {
    FirstRecord(s, [body], made, pieces);
  }

  /** The second message is too long for any record, and no piece of it goes out. */
  lemma NoSecondRecord(s: Sender, first: Octets, second: Octets, made: seq<Sealed>, pieces: seq<Piece>)
    requires |s.outgoing| == |s.numbers| && AllQueued(s.queued, s.outgoing, s.numbers, [first, second])
    requires s.record.wEpoch == 0 && s.record.ctx == NullCipher(true)
    requires s.Greedy(made, pieces, s.mtu) && s.OnTheWay(Position(0, 0), made, pieces) && made != []
    requires |first| == 1 && |second| == 70000 && s.mtu == 100000
    ensures |made| == 1 && s.Pos() == Position(1, 0) && !s.Full(made, s.mtu)
  {
    hide Sender.Greedy, Sender.OnTheWay;
    FirstRecord(s, [first, second], made, pieces);
    if |made| > 1 {
      SecondRecord(s, [first, second], made, pieces);
    }
    assert made == [made[0]];
  }

  /** Without keys any flight that fits the packets can be sent. */
  lemma BegunAble(s: Sender, mtu: nat, body: Octets)
    requires Begun(s, mtu, [body]) && |body| < 0x100_0000
    requires HM_HEADER_LENGTH + 1 + RT_HEADER_LENGTH <= mtu < U16
    ensures s.Able(mtu)
  {
    assert s.outgoing[0].epoch == 0 && BodyOf(s.outgoing[0]) == [body][0];
    assert Left(s.outgoing, Position(1, 0)) == 0;
    assert Left(s.outgoing, Position(0, 0)) == |body| + 1;
  }

  /** Without keys a first record can always be made of what fits. */
  lemma BegunProgress(s: Sender, mtu: nat, bodies: seq<Octets>)
    requires Begun(s, mtu, bodies) && bodies != [] && mtu >= |bodies[0]| + HM_HEADER_LENGTH + 1 + RT_HEADER_LENGTH
    requires |bodies[0]| < 0x8000
    ensures s.CanProgress(mtu)
  {
  }

  lemma RecordRefused(r: Sealed)
    requires r.ctx == NullCipher(true) && |r.text| > MAX_ENCRYPTED_LENGTH
    ensures Packet([r]) != [] && ParseRecord(Packet([r])) == None
  {
    PacketOne(r);
    CiphertextSize(r);
    WireParses(r, []);
    assert Wire(r) + [] == Wire(r);
  }

  /**
  A message of 17000 bytes goes out in one record under an MTU of 20000: the flight is out, and its
  reader drops the packet.
  */
  method SentAndRefused(random: Random, body: Octets)
    returns (s: Sender, r: FlightResult, got: Opened, ghost made: seq<Sealed>)
    requires RandomBytes(random) && |body| == 17000
    ensures r == FlightDone && s.Valid() && s.InPass() && s.Pos() == Position(1, 0) && |s.outgoing| == 1
    ensures s.packets == [made] && |made| == 1 && |made[0].text| == 17012 > MAX_PLAIN_LENGTH
    ensures s.bio.sent == [Packet(made)] && got == Discard
  {
    hide Sender.Valid, Sender.InPass, Sender.Able, Sender.Greedy, Sender.OnTheWay, AllQueued, ParseRecord,
         RecordReader.Valid, RecordWriter.Valid, Packet, Left, Sender.Tight, Sender.CanProgress, Sender.Full,
         Sender.Hindered, RecordWriter.Next, Ciphertext, TakesAll;
    s := Begin(20000, [body]);
    BegunAble(s, 20000, body);
    QueuedCount(s.queued, s.outgoing, s.numbers, [body]);
    ghost var pieces;
    r, made, pieces := s.SendPacket(random);
    OnlyRecord(s, body, made, pieces);
    RecordRefused(made[0]);
    PacketsTaken(s);
    got := OpenFirst(s.bio.sent[0]);
  }

  /** A reader without keys opens a packet. */
  method OpenFirst(packet: Octets) returns (got: Opened)
    requires packet != []
    ensures ParseRecord(packet) == None ==> got == Discard
  {
    var reader := new RecordReader(true);
    var n;
    got, n := reader.OpenRecord(packet);
  }

  /**
  Under an MTU of 100000, a message of one byte and one of 70000: sealing fails on the second record,
  whose length does not fit 16 bits. The flight then stands behind the first message although no packet
  has been sent.
  */
  method RecordsLost(random: Random, first: Octets, second: Octets) returns (s: Sender, r: FlightResult)
    requires RandomBytes(random) && |first| == 1 && |second| == 70000
    ensures r == FlightFailed && s.Valid() && |s.outgoing| == 2
    ensures s.packets == [] && s.bio.sent == [] && s.Pos() == Position(1, 0) && !s.InPass()
  {
    hide Sender.Valid, Sender.InPass, Sender.Greedy, Sender.OnTheWay, AllQueued, RecordWriter.Valid, Packet, Left,
         Sender.Tight, Sender.CanProgress, Sender.Full, Sender.Able, Sender.Hindered;
    s := Begin(100000, [first, second]);
    BegunProgress(s, 100000, [first, second]);
    QueuedCount(s.queued, s.outgoing, s.numbers, [first, second]);
    ghost var made, pieces;
    r, made, pieces := s.SendPacket(random);
    NoSecondRecord(s, first, second, made, pieces);
    PacketsTaken(s);
  }

  lemma PacketsTaken(s: Sender)
    requires s.Valid()
    ensures |s.bio.sent| == |s.packets| && forall i :: 0 <= i < |s.packets| ==> s.bio.sent[i] == Packet(s.packets[i])
  {
  }
}
