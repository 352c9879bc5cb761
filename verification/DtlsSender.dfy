/**
Sending DTLS flights: handshake messages are cut into fragments that fit the packet, several
records share a packet, and a flight can be sent again from its start under another MTU
(sections 4.2.3 and 4.2.4 of RFC 6347).
*/
module DtlsSender {
  import opened Bytes
  import opened AeadContext
  import opened DtlsFragment
  import opened DtlsReceiver
  import opened DtlsRecord
  import BigEndian

  /** A `CBB` over a buffer of fixed capacity: adding past the end fails. */
  class FixedCbb {
    const buf: array<Byte>
    var len: nat

    constructor (capacity: nat)
      ensures buf.Length == capacity && len == 0 && fresh(buf)
    {
      buf := new Byte[capacity];
      len := 0;
    }

    ghost function Contents(): Octets
      requires len <= buf.Length
      reads this, buf
    {
      buf[..len]
    }

    /** `CBB_add_bytes`; the integer forms add the big-endian bytes of the integer. */
    method Add(bytes: Octets) returns (ok: bool)
      requires len <= buf.Length
      modifies this, buf
      ensures ok <==> old(len) + |bytes| <= buf.Length
      ensures len <= buf.Length && Contents() == if ok then old(Contents()) + bytes else old(Contents())
    {
      if len + |bytes| > buf.Length {
        return false;
      }
      Copy(buf, len, bytes);
      ghost var was := len;
      len := len + |bytes|;
      assert buf[..len] == buf[..was] + buf[was..len];
      return true;
    }
  }

  datatype Outgoing = Outgoing(data: Octets, epoch: nat, isCcs: bool)

  /** The body of a queued handshake message. */
  function BodyOf(m: Outgoing): Octets
  {
    if m.isCcs || |m.data| < HM_HEADER_LENGTH then [] else m.data[HM_HEADER_LENGTH..]
  }

  // ---- positions in a flight ----

  /** How far a flight has been written: messages done, and bytes of the next one's body. */
  datatype Position = Position(written: nat, offset: nat)

  /** A fragment sent: bytes `[off, off + len)` of message `index` of the flight. */
  datatype Piece = Piece(index: nat, off: nat, len: nat)

  predicate GoodPosition(flight: seq<Outgoing>, p: Position)
  {
    && p.written <= |flight|
    && if p.written == |flight| then p.offset == 0
       else p.offset == 0 || p.offset < |BodyOf(flight[p.written])|
  }

  /** A piece that continues where `p` is: at least a byte unless the message is empty. */
  predicate Continues(flight: seq<Outgoing>, p: Position, x: Piece)
  {
    && p.written < |flight| && x.index == p.written && x.off == p.offset
    && x.off + x.len <= |BodyOf(flight[p.written])|
    && (x.len == 0 ==> BodyOf(flight[p.written]) == [])
  }

  function After(flight: seq<Outgoing>, p: Position, x: Piece): Position
    requires Continues(flight, p, x)
  {
    if x.off + x.len == |BodyOf(flight[p.written])| then Position(p.written + 1, 0)
    else Position(p.written, x.off + x.len)
  }

  /** The position reached from `p` by sending `pieces`, if each continues the one before. */
  function Walk(flight: seq<Outgoing>, p: Position, pieces: seq<Piece>): Option<Position>
    decreases |pieces|
  {
    if pieces == [] then Some(p)
    else if Continues(flight, p, pieces[0]) then Walk(flight, After(flight, p, pieces[0]), pieces[1..])
    else None
  }

  lemma {:induction false} WalkAppend(flight: seq<Outgoing>, p: Position, a: seq<Piece>, b: seq<Piece>)
    requires Walk(flight, p, a).Some?
    ensures Walk(flight, p, a + b) == Walk(flight, Walk(flight, p, a).value, b)
    decreases |a|
  {
    if a == [] {
      assert a + b == b;
    } else {
      assert (a + b)[1..] == a[1..] + b;
      WalkAppend(flight, After(flight, p, a[0]), a[1..], b);
    }
  }

  /** Bytes of message `j` from `from` on that `p` has already passed. */
  predicate Passed(p: Position, j: nat, b: nat)
  {
    j < p.written || (j == p.written && b < p.offset)
  }

  predicate Holds(x: Piece, j: nat, b: nat)
  {
    x.index == j && x.off <= b < x.off + x.len
  }

  /** How many of the pieces hold byte `b` of message `j`. */
  function Copies(pieces: seq<Piece>, j: nat, b: nat): nat
  {
    if pieces == [] then 0 else (if Holds(pieces[0], j, b) then 1 else 0) + Copies(pieces[1..], j, b)
  }

  /**
  A pass sends every byte between its start and its end exactly once, and no other: the pieces cut
  each message into consecutive ranges.
  */
  lemma {:induction false} WalkPartitions(flight: seq<Outgoing>, p: Position, pieces: seq<Piece>, j: nat, b: nat)
    requires Walk(flight, p, pieces).Some? && j < |flight| && b < |BodyOf(flight[j])|
    ensures var end := Walk(flight, p, pieces).value;
            Copies(pieces, j, b) == if !Passed(p, j, b) && Passed(end, j, b) then 1 else 0
    ensures Passed(p, j, b) ==> Passed(Walk(flight, p, pieces).value, j, b)
    decreases |pieces|
  {
    if pieces != [] {
      WalkPartitions(flight, After(flight, p, pieces[0]), pieces[1..], j, b);
    }
  }

  /** A complete pass over a flight carries every byte of every message exactly once. */
  lemma CompletePass(flight: seq<Outgoing>, pieces: seq<Piece>, j: nat, b: nat)
    requires Walk(flight, Position(0, 0), pieces) == Some(Position(|flight|, 0))
    requires j < |flight| && b < |BodyOf(flight[j])|
    ensures Copies(pieces, j, b) == 1
  {
    WalkPartitions(flight, Position(0, 0), pieces, j, b);
  }

  /** Bytes still to be written, counting one extra for each message so that empty ones count too. */
  function Left(flight: seq<Outgoing>, p: Position): int
    requires p.written <= |flight|
    decreases |flight| - p.written
  {
    if p.written == |flight| then 0
    else |BodyOf(flight[p.written])| + 1 - p.offset + Left(flight, Position(p.written + 1, 0))
  }

  /** Every piece brings the end of the flight nearer. */
  lemma PieceProgress(flight: seq<Outgoing>, p: Position, x: Piece)
    requires GoodPosition(flight, p) && Continues(flight, p, x)
    ensures GoodPosition(flight, After(flight, p, x))
    ensures 0 <= Left(flight, After(flight, p, x)) < Left(flight, p)
  {
    LeftBound(flight, After(flight, p, x));
  }

  lemma {:induction false} LeftBound(flight: seq<Outgoing>, p: Position)
    requires GoodPosition(flight, p)
    ensures Left(flight, p) >= 0 && (Left(flight, p) == 0 <==> p.written == |flight|)
    decreases |flight| - p.written
  {
    if p.written < |flight| { LeftBound(flight, Position(p.written + 1, 0)); }
  }

  // ---- the sender ----

  const MIN_MTU: nat := 256 - 28
  const DEFAULT_MTU: nat := 1500 - 28

  datatype SealResult = SealError | SealNoProgress | SealPartial | SealSuccess

  datatype PacketResult = PacketSealed | MtuTooSmall | PacketError

  datatype FlightResult = FlightDone | FlightUnflushed | FlightBlocked | FlightFailed

  predicate Progressed(r: SealResult) { r.SealPartial? || r.SealSuccess? }

  /** The transport: call `n` of `BIO_write` returns `script(n)`, and takes the packet if that is positive. */
  class Bio {
    const script: nat -> int
    var calls: nat
    var sent: seq<Octets>

    constructor (script: nat -> int)
      ensures calls == 0 && sent == [] && this.script == script
    {
      this.script, calls, sent := script, 0, [];
    }

    method Write(packet: Octets) returns (r: int)
      modifies this
      ensures calls == old(calls) + 1 && r == script(old(calls))
      ensures sent == if r > 0 then old(sent) + [packet] else old(sent)
    {
      r := script(calls);
      calls := calls + 1;
      if r > 0 { sent := sent + [packet]; }
    }
  }

  /** What `RAND_bytes` yields when `n` bytes are drawn for sealing a text. */
  type Random = (nat, Octets) -> Octets

  ghost predicate RandomBytes(random: Random) { forall n: nat, text: Octets :: |random(n, text)| == n }

  /** The record body that carries piece `x` of message number `k`. */
  function FragmentText(q: seq<Message>, k: nat, x: Piece): Octets
    requires k < |q| && x.off + x.len <= |q[k].body|
  {
    HeaderBytes(Header(q[k].kind, |q[k].body|, k, x.off, x.len)) + q[k].body[x.off..x.off + x.len]
  }

  lemma FragmentTextGenuine(q: seq<Message>, k: nat, x: Piece)
    requires k < |q| < U16 && x.off + x.len <= |q[k].body| < 0x100_0000
    ensures AllGenuine(q, FragmentText(q, k, x))
    ensures ParseFragment(FragmentText(q, k, x)) ==
            Some(Fragment(Header(q[k].kind, |q[k].body|, k, x.off, x.len), q[k].body[x.off..x.off + x.len], []))
  {
    var h, b := Header(q[k].kind, |q[k].body|, k, x.off, x.len), q[k].body[x.off..x.off + x.len];
    ParseUndoesFragment(h, b, []);
    assert HeaderBytes(h) + b + [] == FragmentText(q, k, x);
  }

  /** Messages queued later do not make an earlier fragment less genuine. */
  lemma {:induction false} GenuineStays(q: seq<Message>, m: Message, record: Octets)
    requires AllGenuine(q, record)
    ensures AllGenuine(q + [m], record)
    decreases |record|
  {
    if record != [] { GenuineStays(q, m, ParseFragment(record).value.rest); }
  }

  /** Each handshake message of the flight is message `numbers[i]` of the connection, serialized whole. */
  predicate FlightOk(q: seq<Message>, flight: seq<Outgoing>, numbers: seq<nat>)
  {
    && |flight| == |numbers|
    && (forall m :: m in q ==> |m.body| < 0x100_0000)
    && forall i :: 0 <= i < |flight| && !flight[i].isCcs ==>
         numbers[i] < |q| && flight[i].data == MessageBytes(q[numbers[i]].kind, numbers[i], q[numbers[i]].body)
  }

  /** What a record sent may hold: fragments of the messages queued, or a ChangeCipherSpec. */
  predicate RecordOk(q: seq<Message>, s: Sealed)
  {
    if s.kind == RT_HANDSHAKE then AllGenuine(q, s.text) else s.kind == RT_CHANGE_CIPHER_SPEC && s.text == [MT_CCS]
  }

  ghost predicate AllOk(q: seq<Message>, sent: set<Sealed>)
  {
    forall s :: s in sent ==> RecordOk(q, s)
  }

  /** The packets taken are these records, packet by packet. */
  ghost predicate Sent(taken: seq<Octets>, packets: seq<seq<Sealed>>, sent: set<Sealed>)
  {
    && |taken| == |packets|
    && (forall i :: 0 <= i < |packets| ==> taken[i] == Packet(packets[i]))
    && forall i :: 0 <= i < |packets| ==> Among(packets[i], sent)
  }

  ghost predicate Among(rs: seq<Sealed>, sent: set<Sealed>) { forall s :: s in rs ==> s in sent }

  ghost function SetOf(rs: seq<Sealed>): set<Sealed> { set s | s in rs }

  /** The records of several packets in a row. */
  function Flat(packets: seq<seq<Sealed>>): seq<Sealed>
  {
    if packets == [] then [] else Flat(packets[..|packets| - 1]) + packets[|packets| - 1]
  }

  /** Record `s` is piece `x` of the flight: a fragment of its message, under the epoch it was queued in. */
  predicate CarriedBy(q: seq<Message>, flight: seq<Outgoing>, numbers: seq<nat>, x: Piece, s: Sealed)
    requires |flight| == |numbers|
  {
    x.index < |flight| && s.epoch == flight[x.index].epoch &&
    if flight[x.index].isCcs then s.kind == RT_CHANGE_CIPHER_SPEC && s.text == [MT_CCS]
    else
      var k := numbers[x.index];
      k < |q| && x.off + x.len <= |q[k].body| && s.kind == RT_HANDSHAKE && s.text == FragmentText(q, k, x)
  }

  /** The records carry the pieces, one by one. */
  predicate Carries(q: seq<Message>, flight: seq<Outgoing>, numbers: seq<nat>, rs: seq<Sealed>, pieces: seq<Piece>)
    requires |flight| == |numbers|
  {
    |rs| == |pieces| && forall i :: 0 <= i < |rs| ==> CarriedBy(q, flight, numbers, pieces[i], rs[i])
  }

  lemma NothingYet(q: seq<Message>, flight: seq<Outgoing>, numbers: seq<nat>, p: Position)
    requires |flight| == |numbers|
    ensures Packet([]) == [] && Walk(flight, p, []) == Some(p) && Carries(q, flight, numbers, [], [])
  {
  }

  lemma CarriesAppend(q: seq<Message>, flight: seq<Outgoing>, numbers: seq<nat>,
                      rs: seq<Sealed>, pieces: seq<Piece>, rs': seq<Sealed>, pieces': seq<Piece>)
    requires |flight| == |numbers|
    requires Carries(q, flight, numbers, rs, pieces) && Carries(q, flight, numbers, rs', pieces')
    ensures Carries(q, flight, numbers, rs + rs', pieces + pieces')
  {
    forall i | 0 <= i < |rs + rs'| ensures CarriedBy(q, flight, numbers, (pieces + pieces')[i], (rs + rs')[i]) {
      if i >= |rs| {
        assert CarriedBy(q, flight, numbers, pieces'[i - |rs|], rs'[i - |rs|]);
      }
    }
  }

  /** One more packet taken. */
  lemma SentMore(taken: seq<Octets>, packets: seq<seq<Sealed>>, sent: set<Sealed>, rs: seq<Sealed>)
    requires Sent(taken, packets, sent)
    ensures Sent(taken + [Packet(rs)], packets + [rs], sent + SetOf(rs))
  {
    var packets', sent' := packets + [rs], sent + SetOf(rs);
    forall i | 0 <= i < |packets'| ensures Among(packets'[i], sent') {
      if i < |packets| { assert Among(packets[i], sent); }
    }
  }

  lemma FlatMore(packets: seq<seq<Sealed>>, from: nat, rs: seq<Sealed>)
    requires from <= |packets|
    ensures Flat((packets + [rs])[from..]) == Flat(packets[from..]) + rs
  {
    var all := (packets + [rs])[from..];
    assert all == packets[from..] + [rs];
    assert all[..|all| - 1] == packets[from..];
  }

  /** Queueing a message keeps all that holds of the flight and of what was sent. */
  lemma QueueKeeps(q: seq<Message>, flight: seq<Outgoing>, numbers: seq<nat>, sent: set<Sealed>, m: Message,
                   o: Outgoing)
    requires FlightOk(q, flight, numbers) && AllOk(q, sent)
    requires o.isCcs || (|m.body| < 0x100_0000 && o.data == MessageBytes(m.kind, |q|, m.body))
    ensures var q' := if o.isCcs then q else q + [m];
            FlightOk(q', flight + [o], numbers + [|q|]) && AllOk(q', sent)
  {
    if !o.isCcs {
      forall s | s in sent ensures RecordOk(q + [m], s) {
        if s.kind == RT_HANDSHAKE { GenuineStays(q, m, s.text); }
      }
    }
  }

  /** It also keeps the records of the pass what they were. */
  lemma QueueKeepsPass(q: seq<Message>, flight: seq<Outgoing>, numbers: seq<nat>, rs: seq<Sealed>, pass: seq<Piece>,
                       m: Message, o: Outgoing)
    requires |flight| == |numbers| && Carries(q, flight, numbers, rs, pass)
    ensures var q' := if o.isCcs then q else q + [m];
            Carries(q', flight + [o], numbers + [|q|], rs, pass)
  {
    var q' := if o.isCcs then q else q + [m];
    forall i | 0 <= i < |rs| ensures CarriedBy(q', flight + [o], numbers + [|q|], pass[i], rs[i]) {
      assert CarriedBy(q, flight, numbers, pass[i], rs[i]);
    }
  }

  /**
  The next piece of the flight and the record body it goes out in, when records may be `maxOut` long
  and sealing adds at most `overhead`: as much of the next message as fits, but at least a byte.
  */
  predicate NextPiece(q: seq<Message>, flight: seq<Outgoing>, numbers: seq<nat>, from: Position,
                      overhead: nat, maxOut: nat, x: Piece, text: Octets)
    requires from.written < |flight| == |numbers|
  {
    var m, k := flight[from.written], numbers[from.written];
    x.index == from.written && x.off == from.offset &&
    if m.isCcs then x.len == 0 && text == [MT_CCS] && maxOut >= 1 + overhead
    else
      && maxOut >= HM_HEADER_LENGTH + 1 + overhead && k < |q| && BodyOf(m) == q[k].body
      && x.off <= |q[k].body|
      && (var left, fits := |q[k].body| - x.off, maxOut - HM_HEADER_LENGTH - overhead;
          x.len == if left > fits then fits else left)
      && text == FragmentText(q, k, x)
  }

  /** The length of that record body. */
  function NextSize(m: Outgoing, offset: nat, overhead: nat, maxOut: nat): nat
    requires m.isCcs || (offset <= |BodyOf(m)| && maxOut >= HM_HEADER_LENGTH + overhead)
  {
    if m.isCcs then 1
    else
      var left, fits := |BodyOf(m)| - offset, maxOut - HM_HEADER_LENGTH - overhead;
      HM_HEADER_LENGTH + if left > fits then fits else left
  }

  /**
  The text is longer than a record may be exactly if both the message and the packet have that much
  left: sealing only checks that the length fits 16 bits, and no receiver takes such a record.
  */
  lemma OversizedText(m: Outgoing, offset: nat, overhead: nat, maxOut: nat)
    requires !m.isCcs && offset <= |BodyOf(m)| && RoomFor(m, overhead, maxOut)
    ensures NextSize(m, offset, overhead, maxOut) > MAX_PLAIN_LENGTH <==>
            && HM_HEADER_LENGTH + |BodyOf(m)| - offset > MAX_PLAIN_LENGTH
            && maxOut - overhead > MAX_PLAIN_LENGTH
  {
  }

  /** What goes out next continues the flight where it stands, and is as long as planned. */
  lemma NextContinues(q: seq<Message>, flight: seq<Outgoing>, numbers: seq<nat>, from: Position,
                      overhead: nat, maxOut: nat, x: Piece, text: Octets)
    requires from.written < |flight| && FlightOk(q, flight, numbers) && GoodPosition(flight, from) && |q| < U16
    requires NextPiece(q, flight, numbers, from, overhead, maxOut, x, text)
    ensures Continues(flight, from, x) && (flight[from.written].isCcs || from.offset <= |BodyOf(flight[from.written])|)
    ensures |text| == NextSize(flight[from.written], from.offset, overhead, maxOut) <= maxOut - overhead
  {
  }

  /** A record with that body carries the piece, and nothing that was not queued. */
  lemma NextCarried(q: seq<Message>, flight: seq<Outgoing>, numbers: seq<nat>, from: Position,
                    overhead: nat, maxOut: nat, x: Piece, s: Sealed)
    requires from.written < |flight| && FlightOk(q, flight, numbers) && GoodPosition(flight, from) && |q| < U16
    requires NextPiece(q, flight, numbers, from, overhead, maxOut, x, s.text)
    requires s.epoch == flight[from.written].epoch
    requires s.kind == if flight[from.written].isCcs then RT_CHANGE_CIPHER_SPEC else RT_HANDSHAKE
    ensures CarriedBy(q, flight, numbers, x, s) && RecordOk(q, s)
  {
    if !flight[from.written].isCcs {
      FragmentTextGenuine(q, numbers[from.written], x);
    }
  }

  // ---- room, keys and numbers ----

  lemma TagBound(c: Context, n: nat)
    requires SuffixLen(c, n, 0).Some? && (c.aead.Some? ==> Correct(c.aead.value))
    ensures CiphertextLen(c, n) <= n + MaxOverhead(c)
  {
    if c.aead.Some? {
      assert |c.aead.value.seal([], [], Zeros(n))| == n + c.aead.value.tagLen(n).value;
    }
  }

  /** A transport that takes every packet from its call `from` on. */
  ghost predicate TakesAll(script: nat -> int, from: nat) { forall n: nat :: n >= from ==> script(n) > 0 }

  /** The keys have a tag for every text of up to `n` bytes. */
  ghost predicate TagsUpTo(c: Context, n: nat) { forall k: nat :: k <= n ==> SuffixLen(c, k, 0).Some? }

  /** The MTU of a flight: one below the minimum is replaced by the transport's, if usable, or by the default. */
  function MtuToUse(mtu: nat, mayQuery: bool, queried: int): nat
  {
    if mtu >= MIN_MTU || !mayQuery then mtu
    else if MIN_MTU <= queried <= 0x4000_0000 then queried
    else DEFAULT_MTU
  }

  /** The keys message `m` of a flight goes out under in epoch `epoch`, if its own is still live. */
  function UseOf(m: Outgoing, epoch: nat): Option<UseEpoch>
  {
    if epoch >= 1 && m.epoch == epoch - 1 then Some(PreviousEpoch)
    else if m.epoch == epoch then Some(CurrentEpoch)
    else None
  }

  /** The keys of the current epoch and the one before are live, and each message goes out under its own. */
  lemma LiveKeys(m: Outgoing, epoch: nat)
    ensures UseOf(m, epoch).Some? <==> m.epoch == epoch || m.epoch + 1 == epoch
    ensures UseOf(m, epoch).Some? ==> m.epoch == if UseOf(m, epoch).value.PreviousEpoch? then epoch - 1 else epoch
  {
  }

  /** Room for what sealing adds, a handshake header and one byte, or for a ChangeCipherSpec. */
  predicate RoomFor(m: Outgoing, overhead: nat, maxOut: nat)
  {
    maxOut >= (if m.isCcs then 1 else HM_HEADER_LENGTH + 1) + overhead
  }

  /** The message's keys are live and it has room. */
  predicate Feasible(m: Outgoing, epoch: nat, ctx: Context, lastCtx: Context, maxOut: nat)
  {
    match UseOf(m, epoch)
    case None => false
    case Some(use) =>
      RoomFor(m, RT_HEADER_LENGTH + MaxOverhead(if use.PreviousEpoch? then lastCtx else ctx), maxOut)
  }

  /** What the rest of a flight needs: keys, room, tags, and a sequence number for every record. */
  ghost predicate AbleAt(flight: seq<Outgoing>, p: Position, epoch: nat, ctx: Context, lastCtx: Context,
                         next: nat, last: nat, maxOut: nat)
    requires p.written <= |flight|
  {
    && maxOut < U16 && TagsUpTo(ctx, maxOut) && TagsUpTo(lastCtx, maxOut)
    && (forall i :: p.written <= i < |flight| ==> Feasible(flight[i], epoch, ctx, lastCtx, maxOut))
    && next + Left(flight, p) < SEQUENCES && last + Left(flight, p) < SEQUENCES
  }

  lemma AbleLater(flight: seq<Outgoing>, p: Position, x: Piece, epoch: nat, ctx: Context, lastCtx: Context,
                  next: nat, last: nat, next': nat, last': nat, maxOut: nat)
    requires GoodPosition(flight, p) && Continues(flight, p, x)
    requires AbleAt(flight, p, epoch, ctx, lastCtx, next, last, maxOut) && next' <= next + 1 && last' <= last + 1
    ensures AbleAt(flight, After(flight, p, x), epoch, ctx, lastCtx, next', last', maxOut)
  {
    PieceProgress(flight, p, x);
  }

  class Sender {
    const record: RecordWriter
    const bio: Bio
    var outgoing: seq<Outgoing>
    var outgoingWritten: nat
    var outgoingOffset: nat
    var outgoingComplete: bool
    var handshakeWriteSeq: nat
    var mtu: nat
    // every message ever queued; the number of each message of the flight
    ghost var queued: seq<Message>
    ghost var numbers: seq<nat>
    // the records in each packet the transport has taken, and all of them
    ghost var packets: seq<seq<Sealed>>
    ghost var sent: set<Sealed>
    // the pieces taken since the flight was last begun, and the first packet of that pass
    ghost var pass: seq<Piece>
    ghost var passStart: nat

    ghost function Pos(): Position
      reads this
    {
      Position(outgoingWritten, outgoingOffset)
    }

    ghost predicate Valid()
      reads this, bio, record, record.writeSequence, record.lastWriteSequence
    {
      && record.Valid() && |outgoing| == |numbers| <= MAX_HANDSHAKE_FLIGHT
      && handshakeWriteSeq == |queued| < U16
      && FlightOk(queued, outgoing, numbers) && GoodPosition(outgoing, Pos())
      && Sent(bio.sent, packets, sent) && AllOk(queued, sent)
    }

    /** The flight stands where the packets of this pass have brought it. */
    ghost predicate InPass()
      reads this
    {
      PassTo(Pos())
    }

    ghost predicate PassTo(p: Position)
      reads this
    {
      && |outgoing| == |numbers| && passStart <= |packets|
      && Walk(outgoing, Position(0, 0), pass) == Some(p)
      && Carries(queued, outgoing, numbers, Flat(packets[passStart..]), pass)
    }

    /** The part of `Valid` that sealing depends on. */
    ghost predicate Ready()
      reads this, record, record.writeSequence, record.lastWriteSequence
    {
      && record.Valid() && FlightOk(queued, outgoing, numbers) && |outgoing| == |numbers|
      && |queued| < U16 && GoodPosition(outgoing, Pos())
    }

    constructor (writer: RecordWriter, bio: Bio, mtu: nat)
      requires writer.Valid() && bio.sent == []
      ensures Valid() && InPass() && record == writer && this.bio == bio && this.mtu == mtu
      ensures outgoing == [] && queued == [] && packets == []
      ensures sent == {} && !outgoingComplete && Pos() == Position(0, 0)
    {
      record, this.bio, this.mtu := writer, bio, mtu;
      outgoing, outgoingWritten, outgoingOffset, outgoingComplete, handshakeWriteSeq := [], 0, 0, false, 0;
      queued, numbers, pass, packets, sent, passStart := [], [], [], [], {}, 0;
    }

    /** `dtls1_init_message` and `dtls1_finish_message` around a body: one fragment holding everything. */
    method BuildMessage(kind: Byte, body: Octets) returns (data: Octets)
      requires Valid() && |body| < 0x100_0000
      ensures data == MessageBytes(kind, handshakeWriteSeq, body)
    {
      // the length is written behind the offset first, and copied to the front afterwards
      var msg := [kind] + BigEndian.Encode(0, 3) + BigEndian.Encode(handshakeWriteSeq, 2) +
                 BigEndian.Encode(0, 3) + BigEndian.Encode(|body|, 3) + body;
      assert msg[9..12] == BigEndian.Encode(|body|, 3);
      data := msg[..1] + msg[HM_HEADER_LENGTH - 3..HM_HEADER_LENGTH] + msg[4..];
      assert msg[4..] == BigEndian.Encode(handshakeWriteSeq, 2) + BigEndian.Encode(0, 3) +
                         BigEndian.Encode(|body|, 3) + body;
    }

    /** `dtls_clear_outgoing_messages`. */
    method ClearOutgoing()
      requires Valid()
      modifies this`outgoing, this`outgoingWritten, this`outgoingOffset, this`outgoingComplete, this`numbers,
               this`pass, this`passStart
      ensures Valid() && InPass() && outgoing == [] && !outgoingComplete && Pos() == Position(0, 0)
    {
      hide Packet, Sent, AllOk, Proper, Correct, WellFormed, Ledger, RecordOk, RecordWriter.Valid;
      outgoing, outgoingWritten, outgoingOffset, outgoingComplete := [], 0, 0, false;
      assert packets[|packets|..] == [];
      NothingYet(queued, outgoing, [], Pos());
      numbers, pass, passStart := [], [], |packets|;
    }

    /** `add_outgoing`: a new flight begins once the last one has been flushed. */
    method AddOutgoing(isCcs: bool, data: Octets, ghost m: Message) returns (ok: bool)
      requires Valid() && handshakeWriteSeq + 1 < U16
      requires !isCcs ==> |m.body| < 0x100_0000 && data == MessageBytes(m.kind, handshakeWriteSeq, m.body)
      modifies this
      ensures Valid() && packets == old(packets) && sent == old(sent) && mtu == old(mtu)
      ensures old(InPass()) ==> InPass()
      ensures ok <==> old(outgoingComplete) || old(|outgoing|) < MAX_HANDSHAKE_FLIGHT
      ensures ok ==> queued == if isCcs then old(queued) else old(queued) + [m]
      ensures ok ==>
        outgoing == (if old(outgoingComplete) then [] else old(outgoing)) + [Outgoing(data, record.wEpoch, isCcs)]
      ensures ok ==> numbers == (if old(outgoingComplete) then [] else old(numbers)) + [old(handshakeWriteSeq)]
      ensures ok ==> Pos() == if old(outgoingComplete) then Position(0, 0) else old(Pos())
      ensures !ok ==> queued == old(queued) && outgoing == old(outgoing)
      ensures ok ==> !outgoingComplete
    {
      if outgoingComplete {
        ClearOutgoing();
      }
      if |outgoing| >= MAX_HANDSHAKE_FLIGHT {
        return false;
      }
      Enqueue(Outgoing(data, record.wEpoch, isCcs), m);
      return true;
    }

    /** The message goes to the end of the flight. */
    method Enqueue(o: Outgoing, ghost m: Message)
      requires Valid() && handshakeWriteSeq + 1 < U16 && |outgoing| < MAX_HANDSHAKE_FLIGHT
      requires o.isCcs || (|m.body| < 0x100_0000 && o.data == MessageBytes(m.kind, handshakeWriteSeq, m.body))
      modifies this`outgoing, this`handshakeWriteSeq, this`queued, this`numbers
      ensures Valid() && (old(InPass()) ==> InPass())
      ensures queued == if o.isCcs then old(queued) else old(queued) + [m]
      ensures outgoing == old(outgoing) + [o] && numbers == old(numbers) + [old(handshakeWriteSeq)]
    {
      hide Packet, Walk, Carries, FlightOk, AllOk, Sent, Proper, Correct, WellFormed, Ledger;
      QueueKeeps(queued, outgoing, numbers, sent, m, o);
      if InPass() {
        WalkStays(outgoing, o, Position(0, 0), pass);
        QueueKeepsPass(queued, outgoing, numbers, Flat(packets[passStart..]), pass, m, o);
      }
      numbers := numbers + [handshakeWriteSeq];
      if !o.isCcs {
        queued := queued + [m];
        handshakeWriteSeq := handshakeWriteSeq + 1;
      }
      outgoing := outgoing + [o];
    }

    /** `dtls1_set_write_state`: messages already queued keep the epoch they were queued in. */
    method SetWriteState(aead: Context)
      requires Valid() && record.wEpoch + 1 < EPOCHS
      requires WellFormed(aead) && (aead.aead.Some? ==> Correct(aead.aead.value))
      modifies record, record.writeSequence, record.lastWriteSequence
      ensures Valid() && (old(InPass()) ==> InPass())
      ensures record.wEpoch == old(record.wEpoch) + 1 && record.ctx == aead && record.lastCtx == old(record.ctx)
    {
      record.NextEpoch(aead);
    }

    /** `dtls1_flush_flight` and `dtls1_retransmit_outgoing_messages` before they send. */
    method BeginFlush(rewind: bool)
      requires Valid()
      modifies this`outgoingComplete, this`outgoingWritten, this`outgoingOffset, this`pass, this`passStart
      ensures Valid() && outgoingComplete == (old(outgoingComplete) || !rewind)
      ensures Pos() == if rewind then Position(0, 0) else old(Pos())
      ensures rewind || old(InPass()) ==> InPass()
      ensures passStart == (if rewind then |packets| else old(passStart)) && (rewind ==> pass == [])
    {
      if rewind {
        outgoingWritten, outgoingOffset, pass, passStart := 0, 0, [], |packets|;
      } else {
        outgoingComplete := true;
      }
    }

    function UseFor(m: Outgoing): Option<UseEpoch>
      reads record`wEpoch
    {
      UseOf(m, record.wEpoch)
    }

    predicate HasRoom(m: Outgoing, maxOut: nat)
      requires UseFor(m).Some?
      reads record`wEpoch, record`ctx, record`lastCtx
    {
      RoomFor(m, record.MaxSealOverhead(UseFor(m).value), maxOut)
    }

    function Current(): Outgoing
      requires outgoingWritten < |outgoing|
      reads `outgoing, `outgoingWritten
    {
      outgoing[outgoingWritten]
    }

    /** The keys are there, and a record with as much as fits into `maxOut` can be sealed. */
    ghost predicate CanProgress(maxOut: nat)
      requires Ready() && outgoingWritten < |outgoing|
      reads this, record, record.writeSequence, record.lastWriteSequence
    {
      var m := Current();
      && UseFor(m).Some? && HasRoom(m, maxOut)
      && var use := UseFor(m).value;
         record.CanSeal(NextSize(m, outgoingOffset, record.MaxSealOverhead(use), maxOut), use, maxOut)
    }

    /** Why sealing failed: the keys are gone, the text cannot be sealed, or its sequence number was the last. */
    ghost predicate Stuck(maxOut: nat)
      requires Ready()
      reads this, record, record.writeSequence, record.lastWriteSequence
    {
      outgoingWritten < |outgoing| &&
      (UseFor(Current()).Some? ==>
         && HasRoom(Current(), maxOut)
         && (!CanProgress(maxOut) ||
             var use := UseFor(Current()).value;
             record.EpochFor(use) in record.wraps && record.Next(use) == 0))
    }

    /** Why a packet cannot be made: the MTU leaves no room for the next message, or sealing failed. */
    ghost predicate Hindered(maxOut: nat)
      requires Ready()
      reads this, record, record.writeSequence, record.lastWriteSequence
    {
      && outgoingWritten < |outgoing|
      && (Tight(maxOut) || SomeStuck(maxOut))
    }

    /** Nothing is in the way of the rest of the flight, in packets of at most `maxOut` bytes. */
    ghost predicate Able(maxOut: nat)
      requires Ready()
      reads this, record, record.writeSequence, record.lastWriteSequence
    {
      AbleFrom(Pos(), maxOut)
    }

    ghost predicate AbleFrom(p: Position, maxOut: nat)
      requires record.Valid() && p.written <= |outgoing|
      reads this, record, record.writeSequence, record.lastWriteSequence
    {
      AbleAt(outgoing, p, record.wEpoch, record.ctx, record.lastCtx,
             record.Next(CurrentEpoch), record.Next(PreviousEpoch), maxOut)
    }

    lemma AbleProgress(maxOut: nat, room: nat)
      requires Ready() && outgoingWritten < |outgoing| && Able(maxOut) && room <= maxOut
      ensures UseFor(Current()).Some? && HasRoom(Current(), maxOut)
      ensures HasRoom(Current(), room) ==> CanProgress(room)
    {
      assert Feasible(Current(), record.wEpoch, record.ctx, record.lastCtx, maxOut);
      if HasRoom(Current(), room) { RoomProgress(maxOut, room); }
    }

    lemma RoomProgress(maxOut: nat, room: nat)
      requires Ready() && outgoingWritten < |outgoing| && Able(maxOut) && room <= maxOut
      requires UseFor(Current()).Some? && HasRoom(Current(), room)
      ensures CanProgress(room)
    {
      var m, use := Current(), UseFor(Current()).value;
      var n, c := NextSize(m, outgoingOffset, record.MaxSealOverhead(use), room), record.CtxFor(use);
      assert n <= room - record.MaxSealOverhead(use);
      assert SuffixLen(c, n, 0).Some? && CiphertextLen(c, n) <= n + MaxOverhead(c) by { TagBound(c, n); }
      LeftBound(outgoing, Pos());
    }

    /**
    `seal_next_message`: one record, of at most `maxOut` bytes, with the next piece of the next
    message. It makes progress whenever there is room for the headers and a byte, and the only errors
    are an epoch whose keys are gone and a record layer that cannot seal.
    */
    method SealNextMessage(maxOut: nat, random: Random)
      returns (r: SealResult, out: Octets, ghost x: Piece, ghost made: seq<Sealed>)
      requires Ready() && outgoingWritten < |outgoing| && RandomBytes(random)
      modifies this`outgoingOffset
      modifies record`sealed, record`wraps, record.writeSequence, record.lastWriteSequence
      ensures Ready()
      ensures Progressed(r) <==> old(CanProgress(maxOut))
      ensures r.SealNoProgress? <==> old(Tight(maxOut))
      ensures r.SealError? ==> Stuck(maxOut)
      ensures out == Packet(made) && |out| <= maxOut
      ensures !Progressed(r) ==> made == [] && out == [] && outgoingOffset == old(outgoingOffset)
      ensures Progressed(r) ==> NextRecord(old(Pos()), maxOut, x, made) && out != []
      ensures Progressed(r) ==> Stepped(old(Pos()), x, r.SealSuccess?)
      ensures r.SealNoProgress? ==> unchanged(record, record.writeSequence, record.lastWriteSequence)
      ensures record.Next(CurrentEpoch) <= old(record.Next(CurrentEpoch)) + 1
      ensures record.Next(PreviousEpoch) <= old(record.Next(PreviousEpoch)) + 1
    {
      hide Packet, Proper, Correct, WellFormed, Ledger, FlightOk, NextPiece, NextSize, RoomFor, MaxOverhead,
           ExplicitNonceLen, SuffixLen, CiphertextLen, RecordOk, AllOk, RecordWriter.Valid, RecordWriter.Made,
           RecordWriter.CanSeal;
      var msg := Current();
      out, x, made := [], Piece(outgoingWritten, outgoingOffset, 0), [];
      NothingYet([], [], [], Pos());
      var use := UseFor(msg);
      if use.None? {
        return SealError, out, x, made;
      }
      ghost var overhead := record.MaxSealOverhead(use.value);
      var room, len, body := PlanPiece(msg, outgoingOffset, record.MaxSealOverhead(use.value),
                                       record.SealPrefixLen(use.value), maxOut,
                                       queued, outgoing, numbers, outgoingWritten);
      if !room {
        return SealNoProgress, out, x, made;
      }
      x := Piece(outgoingWritten, outgoingOffset, len);
      NextContinues(queued, outgoing, numbers, Pos(), overhead, maxOut, x, body);
      var kind := if msg.isCcs then RT_CHANGE_CIPHER_SPEC else RT_HANDSHAKE;
      var ok;
      ok, out, made := SealBody(kind, body, use.value, random, maxOut);
      if !ok {
        return SealError, [], x, [];
      }
      r := Commit(msg, len);
    }

    /** The record just made is the one that carries on from `from`. */
    ghost predicate NextRecord(from: Position, maxOut: nat, x: Piece, made: seq<Sealed>)
      reads this, record
    {
      && from.written < |outgoing| == |numbers| && |made| == 1 && record.Made(made[0])
      && var m := outgoing[from.written];
         && UseFor(m).Some? && made[0].epoch == m.epoch
         && made[0].kind == (if m.isCcs then RT_CHANGE_CIPHER_SPEC else RT_HANDSHAKE)
         && NextPiece(queued, outgoing, numbers, from, record.MaxSealOverhead(UseFor(m).value), maxOut, x, made[0].text)
    }

    /** The piece continues the flight, and the offset is the one behind it. */
    ghost predicate Stepped(from: Position, x: Piece, success: bool)
      reads this
    {
      && Continues(outgoing, from, x) && outgoingOffset == After(outgoing, from, x).offset
      && After(outgoing, from, x).written == from.written + if success then 1 else 0
    }

    /** The end of `seal_next_message`: the piece counts as written. */
    method Commit(msg: Outgoing, len: nat) returns (r: SealResult)
      modifies this`outgoingOffset
      ensures r == if old(outgoingOffset) + len == |BodyOf(msg)| then SealSuccess else SealPartial
      ensures outgoingOffset == if r.SealPartial? then old(outgoingOffset) + len else 0
    {
      if outgoingOffset + len == |BodyOf(msg)| {
        outgoingOffset := 0;
        return SealSuccess;
      }
      outgoingOffset := outgoingOffset + len;
      return SealPartial;
    }

    /** The call of `dtls_seal_record`. */
    method SealBody(kind: Byte, body: Octets, use: UseEpoch, random: Random, maxOut: nat)
      returns (ok: bool, out: Octets, ghost made: seq<Sealed>)
      requires record.Valid() && (use.PreviousEpoch? ==> record.wEpoch >= 1) && RandomBytes(random)
      modifies record`sealed, record`wraps, record.writeSequence, record.lastWriteSequence
      ensures record.Valid() && (ok <==> old(record.CanSeal(|body|, use, maxOut)))
      ensures ok ==>
        && |made| == 1 && record.Made(made[0]) && made[0].kind == kind && made[0].text == body
        && made[0].epoch == record.EpochFor(use) && made[0].n == old(record.Next(use))
        && out == Packet(made) && 0 < |out| <= maxOut
      ensures !ok ==> !record.CanSeal(|body|, use, maxOut) ||
                      (record.EpochFor(use) in record.wraps && record.Next(use) == 0)
      ensures record.Next(CurrentEpoch) <= old(record.Next(CurrentEpoch)) + 1
      ensures record.Next(PreviousEpoch) <= old(record.Next(PreviousEpoch)) + 1
    {
      ghost var nonce := random(record.CtxFor(use).variableNonceLen, body);
      ghost var s := record.RecordFor(kind, body, use, nonce);
      ok, out := record.SealRecord(kind, body, use, random(record.CtxFor(use).variableNonceLen, body), maxOut);
      made := [];
      if ok {
        made := [s];
        PacketOne(s);
      }
    }

    /** The body of the next record: a ChangeCipherSpec, or as much of a handshake message as fits. */
    method PlanPiece(msg: Outgoing, offset: nat, overhead: nat, prefix: nat, maxOut: nat,
                     ghost q: seq<Message>, ghost flight: seq<Outgoing>, ghost numbers: seq<nat>, ghost i: nat)
      returns (room: bool, len: nat, text: Octets)
      requires i < |flight| && flight[i] == msg && FlightOk(q, flight, numbers) && |q| < U16
      requires GoodPosition(flight, Position(i, offset)) && prefix <= overhead
      ensures room <==> RoomFor(msg, overhead, maxOut)
      ensures room ==> NextPiece(q, flight, numbers, Position(i, offset), overhead, maxOut, Piece(i, offset, len), text)
      ensures room ==> offset + len <= |BodyOf(msg)|
    {
      if msg.isCcs {
        return maxOut >= 1 + overhead, 0, [MT_CCS];
      }
      ghost var k := numbers[i];
      SerializedMessage(q[k], k, msg.data);
      room, len, text := NextFragment(msg, offset, overhead, prefix, maxOut, q, k);
    }

    /** The header of a queued message and the part of its body from `offset` on. */
    method Unsent(msg: Outgoing, offset: nat, ghost m: Message, ghost k: nat)
      returns (ok: bool, h: Header, body: Octets)
      requires |m.body| < 0x100_0000 && k < U16 && msg.data == MessageBytes(m.kind, k, m.body) && offset <= |m.body|
      ensures ok && h == Header(m.kind, |m.body|, k, 0, |m.body|) && body == m.body[offset..]
    {
      SerializedMessage(m, k, msg.data);
      var f := ParseFragment(msg.data);
      h, body := f.value.header, f.value.body[offset..];
      ok := h.fragOff == 0 && h.fragLen == |f.value.body| && h.msgLen == |f.value.body| &&
            offset <= |f.value.body| && f.value.rest == [];
    }

    /** The next fragment of a handshake message, as large as fits into `maxOut` once sealed. */
    method NextFragment(msg: Outgoing, offset: nat, overhead: nat, prefix: nat, maxOut: nat, ghost q: seq<Message>,
                        ghost k: nat)
      returns (room: bool, todo: nat, text: Octets)
      requires k < |q| < U16 && |q[k].body| < 0x100_0000 && msg.data == MessageBytes(q[k].kind, k, q[k].body)
      requires offset <= |q[k].body| && prefix <= overhead
      ensures room <==> maxOut >= HM_HEADER_LENGTH + 1 + overhead
      ensures room ==>
        var left, fits := |q[k].body| - offset, maxOut - HM_HEADER_LENGTH - overhead;
        todo == (if left > fits then fits else left) && text == FragmentText(q, k, Piece(0, offset, todo))
    {
      var ok, h, body := Unsent(msg, offset, q[k], k);
      if maxOut < HM_HEADER_LENGTH + 1 + overhead || maxOut < prefix {
        return false, 0, [];
      }
      todo := |body|;
      if todo > maxOut - HM_HEADER_LENGTH - overhead {
        todo := maxOut - HM_HEADER_LENGTH - overhead;
      }
      ok, text := BuildFragment(h, offset, body[..todo], maxOut - prefix);
      assert body[..todo] == q[k].body[offset..offset + todo];
      room := true;
    }

    /**
    `seal_next_packet`: as many records as fit, each continuing the flight where the last one left it;
    the packet is those records one behind the other. It is "mtu too small" exactly if there is no room
    for the first message's headers and a byte. When sealing fails, the place in the flight is behind the
    records made before, if there are any.
    */
    method SealNextPacket(maxOut: nat, random: Random)
      returns (r: PacketResult, packet: Octets, ghost made: seq<Sealed>, ghost pieces: seq<Piece>)
      requires Ready() && outgoingWritten < |outgoing| && RandomBytes(random)
      modifies this`outgoingWritten, this`outgoingOffset
      modifies record`sealed, record`wraps, record.writeSequence, record.lastWriteSequence
      ensures Ready()
      ensures r.PacketSealed? ==>
        && packet == Packet(made) && 0 < |packet| <= maxOut && made != []
        && OnTheWay(old(Pos()), made, pieces) && Left(outgoing, Pos()) < Left(outgoing, old(Pos()))
      ensures Greedy(made, pieces, maxOut) && (r.PacketSealed? ==> Full(made, maxOut))
      ensures r.MtuTooSmall? <==> old(Tight(maxOut))
      ensures r.MtuTooSmall? ==> Pos() == old(Pos()) && made == []
      ensures r.PacketError? ==> Behind(old(Pos()), made, pieces, maxOut)
      ensures !r.PacketSealed? ==> (made == [] <==> !old(CanProgress(maxOut))) && Hindered(maxOut)
      ensures old(Able(maxOut)) ==> r.PacketSealed? && Able(maxOut)
    {
      hide Packet, Left, Walk, Carries, Proper, Correct, WellFormed, Ledger, FlightOk, AbleAt, Sender.Greedy,
           Sender.AllMade, Sender.CanProgress, Sender.Stuck;
      packet, made, pieces := [], [], [];
      NothingYet(queued, outgoing, numbers, Pos());
      var room: nat, more := maxOut, true;
      ghost var start, can, tight := Pos(), CanProgress(maxOut), Tight(maxOut);
      NoneMade(maxOut);
      while outgoingWritten < |outgoing| && more
        invariant Ready() && packet == Packet(made) && |packet| + room == maxOut && OnTheWay(start, made, pieces)
        invariant Greedy(made, pieces, maxOut) && (can ==> !tight)
        invariant if made == [] then packet == [] && Pos() == start
                  else packet != [] && can && Left(outgoing, Pos()) < Left(outgoing, start)
        invariant made == [] && more ==>
                    outgoingWritten < |outgoing| && can == CanProgress(maxOut) && tight == Tight(maxOut)
        invariant made == [] && !more ==> tight
        invariant made != [] ==> if more then outgoingOffset == 0 else Full(made, maxOut)
        invariant old(Able(maxOut)) ==> Able(maxOut)
        decreases more, |outgoing| - outgoingWritten
      {
        var result, out;
        result, out, made, pieces := PacketTurn(room, random, start, made, pieces, maxOut);
        if result == SealError {
          assert SomeStuck(maxOut);
          return PacketError, packet, made, pieces;
        }
        more := result == SealSuccess;
        packet := packet + out;
        room := room - |out|;
      }
      // "mtu too small" if nothing went in
      r := if packet == [] then MtuTooSmall else PacketSealed;
    }

    /** No room for the next message's headers and a byte. */
    ghost predicate Tight(maxOut: nat)
      requires outgoingWritten < |outgoing|
      reads `outgoing, `outgoingWritten, record`wEpoch, record`ctx, record`lastCtx
    {
      UseFor(Current()).Some? && !HasRoom(Current(), maxOut)
    }

    lemma NoneMade(maxOut: nat)
      requires Ready() && outgoingWritten < |outgoing|
      ensures Greedy([], [], maxOut) && AllMade([]) && (CanProgress(maxOut) ==> !Tight(maxOut))
      ensures Able(maxOut) ==> !Tight(maxOut)
    {
      if Able(maxOut) { AbleProgress(maxOut, maxOut); }
    }

    /** Record `i` of a packet has as much of the next message as the records before it leave room for. */
    ghost predicate TookAll(made: seq<Sealed>, pieces: seq<Piece>, maxOut: nat, i: nat)
      requires i < |made| == |pieces|
      reads `outgoing, `numbers, `queued, record`wEpoch, record`ctx, record`lastCtx
    {
      var x, used := pieces[i], |Packet(made[..i])|;
      && x.index < |outgoing| == |numbers| && UseFor(outgoing[x.index]).Some? && used <= maxOut
      && NextPiece(queued, outgoing, numbers, Position(x.index, x.off),
                   record.MaxSealOverhead(UseFor(outgoing[x.index]).value), maxOut - used, x, made[i].text)
    }

    /** Every record of the packet takes as much of the flight as it can. */
    ghost predicate Greedy(made: seq<Sealed>, pieces: seq<Piece>, maxOut: nat)
      reads `outgoing, `numbers, `queued, record`wEpoch, record`ctx, record`lastCtx
    {
      |made| == |pieces| && forall i :: 0 <= i < |made| ==> TookAll(made, pieces, maxOut, i)
    }

    lemma GreedyMore(made: seq<Sealed>, pieces: seq<Piece>, maxOut: nat, s: Sealed, x: Piece)
      requires Greedy(made, pieces, maxOut) && TookAll(made + [s], pieces + [x], maxOut, |made|)
      ensures Greedy(made + [s], pieces + [x], maxOut)
    {
      var all, allPieces := made + [s], pieces + [x];
      forall i | 0 <= i < |all| ensures TookAll(all, allPieces, maxOut, i) {
        if i < |made| {
          assert TookAll(made, pieces, maxOut, i) && all[..i] == made[..i];
        }
      }
    }

    /** A packet that ends between two messages has no room for the second. */
    ghost predicate Full(made: seq<Sealed>, maxOut: nat)
      reads `outgoing, `outgoingWritten, `outgoingOffset, record`wEpoch, record`ctx, record`lastCtx
    {
      outgoingWritten < |outgoing| && outgoingOffset == 0 ==>
        && UseFor(Current()).Some? && |Packet(made)| <= maxOut
        && !HasRoom(Current(), maxOut - |Packet(made)|)
    }

    /** Sealing failed behind the records made: the flight stands behind them, and they are in no packet. */
    ghost predicate Behind(start: Position, made: seq<Sealed>, pieces: seq<Piece>, maxOut: nat)
      requires Ready() && start.written <= |outgoing|
      reads this, record, record.writeSequence, record.lastWriteSequence
    {
      && OnTheWay(start, made, pieces)
      && |Packet(made)| <= maxOut && Stuck(maxOut - |Packet(made)|)
      && if made == [] then Pos() == start else Left(outgoing, Pos()) < Left(outgoing, start)
    }

    /** The records made lead from `start` to where the flight stands, piece by piece. */
    ghost predicate OnTheWay(start: Position, made: seq<Sealed>, pieces: seq<Piece>)
      reads this, record
    {
      && |outgoing| == |numbers| && Walk(outgoing, start, pieces) == Some(Pos())
      && Carries(queued, outgoing, numbers, made, pieces) && AllMade(made)
    }

    /** All these records were made under the live keys, of what was queued. */
    ghost predicate AllMade(made: seq<Sealed>)
      reads this`queued, record`wEpoch, record`ctx, record`lastCtx
    {
      forall s :: s in made ==> record.Made(s) && RecordOk(queued, s)
    }

    /** One turn of the loop of `seal_next_packet`. */
    method PacketTurn(room: nat, random: Random, ghost start: Position, ghost made: seq<Sealed>,
                      ghost pieces: seq<Piece>, ghost maxOut: nat)
      returns (result: SealResult, out: Octets, ghost all: seq<Sealed>, ghost allPieces: seq<Piece>)
      requires Ready() && outgoingWritten < |outgoing| && RandomBytes(random)
      requires OnTheWay(start, made, pieces) && Greedy(made, pieces, maxOut) && |Packet(made)| + room == maxOut
      modifies this`outgoingWritten, this`outgoingOffset
      modifies record`sealed, record`wraps, record.writeSequence, record.lastWriteSequence
      ensures Ready() && OnTheWay(start, all, allPieces)
      ensures Packet(all) == Packet(made) + out && |out| <= room
      ensures Progressed(result) <==> old(CanProgress(room))
      ensures Progressed(result) ==> out != [] && Left(outgoing, Pos()) < Left(outgoing, old(Pos()))
      ensures !Progressed(result) ==> Pos() == old(Pos()) && out == []
      ensures result.SealNoProgress? <==> old(Tight(room))
      ensures result.SealError? ==> Stuck(room)
      ensures outgoingWritten == old(outgoingWritten) + if result.SealSuccess? then 1 else 0
      ensures if Progressed(result) then all != [] else all == made
      ensures result.SealSuccess? ==> outgoingOffset == 0
      ensures Greedy(all, allPieces, maxOut)
      ensures result.SealPartial? ==> outgoingOffset > 0
      ensures old(Able(maxOut)) ==> !result.SealError? && Able(maxOut)
    {
      hide Packet, Walk, Left, Carries, FlightOk, NextPiece, RecordOk, AbleAt, CanProgress, Proper, Correct,
           WellFormed, Ledger, Sender.AllMade, Sender.Greedy, RecordWriter.Made;
      ghost var from, able, x, one := Pos(), Able(maxOut), Piece(0, 0, 0), [];
      ghost var next, last := record.Next(CurrentEpoch), record.Next(PreviousEpoch);
      if able { AbleProgress(maxOut, room); }
      all, allPieces := made, pieces;
      result, out, x, one := SealNextMessage(room, random);
      if !Progressed(result) {
        assert result.SealNoProgress? && able ==> Able(maxOut);
        assert Packet(made) + [] == Packet(made);
        return;
      }
      PacketAppend(made, one);
      assert one == [one[0]];
      AddPiece(from, record.MaxSealOverhead(UseFor(Current()).value), room, maxOut, x, one[0], made, pieces, start);
      all, allPieces := made + one, pieces + [x];
      if result == SealSuccess {
        outgoingWritten := outgoingWritten + 1;
      }
      assert Pos() == After(outgoing, from, x);
      if able {
        AbleLater(outgoing, from, x, record.wEpoch, record.ctx, record.lastCtx, next, last,
                  record.Next(CurrentEpoch), record.Next(PreviousEpoch), maxOut);
      }
    }

    /** What one more record means for the packet's pieces. */
    lemma AddPiece(from: Position, overhead: nat, room: nat, maxOut: nat, x: Piece, s: Sealed,
                   made: seq<Sealed>, pieces: seq<Piece>, start: Position)
      requires |queued| < U16 && from.written < |outgoing| && record.Made(s) && AllMade(made)
      requires FlightOk(queued, outgoing, numbers) && GoodPosition(outgoing, from)
      requires Greedy(made, pieces, maxOut) && |Packet(made)| + room == maxOut
      requires UseFor(outgoing[from.written]).Some?
      requires overhead == record.MaxSealOverhead(UseFor(outgoing[from.written]).value)
      requires NextPiece(queued, outgoing, numbers, from, overhead, room, x, s.text)
      requires s.epoch == outgoing[from.written].epoch
      requires s.kind == if outgoing[from.written].isCcs then RT_CHANGE_CIPHER_SPEC else RT_HANDSHAKE
      requires Walk(outgoing, start, pieces) == Some(from) && Carries(queued, outgoing, numbers, made, pieces)
      ensures Continues(outgoing, from, x) && GoodPosition(outgoing, After(outgoing, from, x))
      ensures Walk(outgoing, start, pieces + [x]) == Some(After(outgoing, from, x))
      ensures Left(outgoing, After(outgoing, from, x)) < Left(outgoing, from)
      ensures Carries(queued, outgoing, numbers, made + [s], pieces + [x]) && AllMade(made + [s])
      ensures Greedy(made + [s], pieces + [x], maxOut)
    {
      NextContinues(queued, outgoing, numbers, from, overhead, room, x, s.text);
      NextCarried(queued, outgoing, numbers, from, overhead, room, x, s);
      PieceProgress(outgoing, from, x);
      WalkAppend(outgoing, start, pieces, [x]);
      CarriesAppend(queued, outgoing, numbers, made, pieces, [s], [x]);
      assert (made + [s])[..|made|] == made && (pieces + [x])[|made|] == x;
      GreedyMore(made, pieces, maxOut, s, x);
    }

    /** `dtls1_update_mtu`. */
    method UpdateMtu(mayQuery: bool, queried: int)
      requires Valid()
      modifies this`mtu
      ensures Valid() && mtu == MtuToUse(old(mtu), mayQuery, queried) && (old(InPass()) ==> InPass())
    {
      if mtu < MIN_MTU && mayQuery {
        mtu := if MIN_MTU <= queried <= 0x4000_0000 then queried else DEFAULT_MTU;
      }
    }

    /** `SSL_set_mtu`. */
    method SetMtu(mtu: nat) returns (ok: bool)
      requires Valid()
      modifies this`mtu
      ensures Valid() && (ok <==> mtu >= MIN_MTU) && this.mtu == (if ok then mtu else old(this.mtu))
      ensures old(InPass()) ==> InPass()
    {
      ok := mtu >= MIN_MTU;
      if ok { this.mtu := mtu; }
    }

    /**
    One packet of `send_flight`. What the transport takes is a packet of records that continue the
    pass; if it takes nothing, the flight stands where it stood. If sealing fails after some records of
    the packet were made, the flight stands behind them although they are in no packet: that happens
    exactly if a first record could be made and then one is stuck, and it takes the flight out of its pass.
    */
    method SendPacket(random: Random)
      returns (r: FlightResult, ghost made: seq<Sealed>, ghost pieces: seq<Piece>)
      requires Valid() && RandomBytes(random) && outgoingWritten < |outgoing|
      modifies this`outgoingWritten, this`outgoingOffset, this`packets, this`sent, this`pass, bio
      modifies record`sealed, record`wraps, record.writeSequence, record.lastWriteSequence
      ensures Valid() && r != FlightUnflushed
      ensures r == FlightDone ==>
        && 0 <= Left(outgoing, Pos()) < Left(outgoing, old(Pos()))
        && packets == old(packets) + [made] && NewPacket(made) && sent == old(sent) + SetOf(made)
      ensures r == FlightDone ==> made != [] && OnTheWay(old(Pos()), made, pieces) && Full(made, mtu)
      ensures r != FlightDone ==> packets == old(packets) && sent == old(sent)
      ensures Since(old(sent)) && Greedy(made, pieces, mtu)
      ensures r == FlightBlocked ==> Pos() == old(Pos()) && bio.script(old(bio.calls)) <= 0
      ensures r == FlightFailed ==>
        if old(Tight(mtu)) then Pos() == old(Pos()) && made == [] else Behind(old(Pos()), made, pieces, mtu)
      ensures r == FlightFailed ==> (made == [] <==> !old(CanProgress(mtu)))
      ensures old(InPass()) ==> (InPass() <==> r != FlightFailed || made == [])
      ensures r == FlightFailed ==> Hindered(mtu)
      ensures old(Able(mtu)) && bio.script(old(bio.calls)) > 0 ==> r == FlightDone && Able(mtu)
      ensures bio.calls >= old(bio.calls)
    {
      hide Packet, Walk, Left, Carries, FlightOk, AllOk, Proper, Correct, WellFormed, Ledger, AbleAt, Sent,
           RecordOk, RecordWriter.Made, RecordWriter.Valid, NextSize, RoomFor, Sender.Greedy,
           Sender.CanProgress, Sender.Stuck, Sender.Full, Sender.SomeStuck;
      var oldWritten, oldOffset := outgoingWritten, outgoingOffset;
      ghost var start := Pos();
      var result, packet;
      result, packet, made, pieces := SealNextPacket(mtu, random);
      if !result.PacketSealed? {
        if made != [] { OutOfPass(start); }
        return FlightFailed, made, pieces;
      }
      r := HandOver(packet, oldWritten, oldOffset, made, pieces);
    }

    /** The call of `BIO_write` for a packet. */
    method HandOver(packet: Octets, oldWritten: nat, oldOffset: nat, ghost made: seq<Sealed>, ghost pieces: seq<Piece>)
      returns (r: FlightResult)
      requires Ready() && Sent(bio.sent, packets, sent) && AllOk(queued, sent)
      requires |outgoing| <= MAX_HANDSHAKE_FLIGHT && handshakeWriteSeq == |queued|
      requires GoodPosition(outgoing, Position(oldWritten, oldOffset))
      requires packet == Packet(made) && OnTheWay(Position(oldWritten, oldOffset), made, pieces)
      modifies this`outgoingWritten, this`outgoingOffset, this`packets, this`sent, this`pass, bio
      ensures Valid() && bio.calls == old(bio.calls) + 1
      ensures r == if bio.script(old(bio.calls)) > 0 then FlightDone else FlightBlocked
      ensures r == FlightDone ==>
        && Pos() == old(Pos()) && 0 <= Left(outgoing, Pos())
        && packets == old(packets) + [made] && sent == old(sent) + SetOf(made)
      ensures r == FlightBlocked ==>
        Pos() == Position(oldWritten, oldOffset) && packets == old(packets) && sent == old(sent)
      ensures old(PassTo(Position(oldWritten, oldOffset))) ==> InPass()
    {
      hide Packet, Walk, Left, Carries, FlightOk, AllOk, Proper, Correct, WellFormed, Ledger, Sent,
           RecordOk, RecordWriter.Made, RecordWriter.Valid, SetOf;
      SentMore(bio.sent, packets, sent, made);
      var bioRet := bio.Write(packet);
      if bioRet <= 0 {
        // retry this packet the next time around
        outgoingWritten, outgoingOffset := oldWritten, oldOffset;
        return FlightBlocked;
      }
      Confirm(Position(oldWritten, oldOffset), made, pieces);
      r := FlightDone;
    }

    /** A flight that stands further on than its pass is out of it. */
    lemma OutOfPass(start: Position)
      requires start.written <= |outgoing| && outgoingWritten <= |outgoing|
      requires Left(outgoing, Pos()) < Left(outgoing, start)
      ensures PassTo(start) ==> !InPass()
    {
    }

    /** Some record of a packet of that size cannot be sealed. */
    ghost predicate SomeStuck(maxOut: nat)
      requires Ready()
      reads this, record, record.writeSequence, record.lastWriteSequence
    {
      exists room: nat :: room <= maxOut && Stuck(room)
    }

    /** The records of a packet that was taken belong to the pass. */
    ghost method Confirm(start: Position, made: seq<Sealed>, pieces: seq<Piece>)
      requires Ready() && OnTheWay(start, made, pieces) && AllOk(queued, sent)
      requires |outgoing| <= MAX_HANDSHAKE_FLIGHT && handshakeWriteSeq == |queued|
      requires Sent(bio.sent, packets + [made], sent + SetOf(made))
      modifies this`pass, this`packets, this`sent
      ensures Valid() && Left(outgoing, Pos()) >= 0
      ensures packets == old(packets) + [made] && sent == old(sent) + SetOf(made)
      ensures old(PassTo(start)) ==> InPass()
    {
      hide Packet, Walk, Left, FlightOk, Proper, Correct, WellFormed, Ledger;
      LeftBound(outgoing, Pos());
      if PassTo(start) {
        WalkAppend(outgoing, Position(0, 0), pass, pieces);
        CarriesAppend(queued, outgoing, numbers, Flat(packets[passStart..]), pass, made, pieces);
        FlatMore(packets, passStart, made);
      }
      pass, packets, sent := pass + pieces, packets + [made], sent + SetOf(made);
    }

    /**
    `send_flight`: packets of at most the MTU until the flight is out. It ends, because every packet
    the transport takes brings the end nearer; and it gets through if there is room, the keys and
    sequence numbers are there and the transport takes what it is given.
    */
    method SendFlight(shutDown: bool, random: Random, mayQuery: bool, queried: int, flushed: bool)
      returns (r: FlightResult)
      requires Valid() && RandomBytes(random)
      modifies this`outgoingWritten, this`outgoingOffset, this`packets, this`sent, this`pass, this`mtu, bio
      modifies record`sealed, record`wraps, record.writeSequence, record.lastWriteSequence
      ensures Valid() && old(packets) <= packets
      ensures shutDown ==> r == FlightFailed && unchanged(this, bio, record)
      ensures !shutDown ==> mtu == MtuToUse(old(mtu), mayQuery, queried)
      ensures old(InPass()) ==> InPass() || (r == FlightFailed && SomeStuck(mtu))
      ensures NewPackets(packets[|old(packets)|..]) && Since(old(sent))
      ensures r == FlightDone || r == FlightUnflushed ==>
        Pos() == Position(|outgoing|, 0) && flushed == (r == FlightDone)
      ensures r == FlightFailed ==> shutDown || Hindered(mtu)
      ensures old(!shutDown && Able(MtuToUse(mtu, mayQuery, queried)) && TakesAll(bio.script, bio.calls)) ==>
                r == if flushed then FlightDone else FlightUnflushed
    {
      hide Packet, Walk, Left, Carries, FlightOk, AllOk, Proper, Correct, WellFormed, Ledger, Sent, AbleAt,
           Sender.Hindered, Sender.SomeStuck;
      if shutDown {
        // "protocol is shutdown"
        return FlightFailed;
      }
      UpdateMtu(mayQuery, queried);
      r := SendRest(random);
      if r == FlightDone && !flushed { r := FlightUnflushed; }
    }

    /** The loop of `send_flight`. */
    method SendRest(random: Random) returns (r: FlightResult)
      requires Valid() && RandomBytes(random)
      modifies this`outgoingWritten, this`outgoingOffset, this`packets, this`sent, this`pass, bio
      modifies record`sealed, record`wraps, record.writeSequence, record.lastWriteSequence
      ensures Valid() && old(packets) <= packets && NewPackets(packets[|old(packets)|..]) && Since(old(sent))
      ensures r != FlightUnflushed && (old(InPass()) ==> InPass() || (r == FlightFailed && SomeStuck(mtu)))
      ensures r == FlightDone ==> Pos() == Position(|outgoing|, 0)
      ensures r == FlightFailed ==> Hindered(mtu)
      ensures old(Able(mtu) && TakesAll(bio.script, bio.calls)) ==> r == FlightDone
    {
      hide Packet, Walk, Left, Carries, FlightOk, AllOk, Proper, Correct, WellFormed, Ledger, Sent, AbleAt,
           RecordOk, RecordWriter.Valid, RecordWriter.Made, Sender.NewPacket, Sender.Hindered, Sender.InPass,
           Sender.Stuck,
           Sender.OnTheWay, Sender.Greedy, Sender.Full;
      while outgoingWritten < |outgoing|
        invariant Valid() && old(packets) <= packets && NewPackets(packets[|old(packets)|..]) && Since(old(sent))
        invariant (old(InPass()) ==> InPass()) && bio.calls >= old(bio.calls)
        invariant old(Able(mtu) && TakesAll(bio.script, bio.calls)) ==> Able(mtu)
        decreases Left(outgoing, Pos())
      {
        ghost var before, made, pieces := packets, [], [];
        r, made, pieces := SendPacket(random);
        if r != FlightDone { return; }
        assert packets[|old(packets)|..] == before[|old(packets)|..] + [made];
      }
      return FlightDone;
    }

    /** A packet of at most the MTU, sealed under the live keys. */
    ghost predicate NewPacket(rs: seq<Sealed>)
      reads `mtu, record`wEpoch, record`ctx, record`lastCtx
    {
      0 < |Packet(rs)| <= mtu && forall s :: s in rs ==> record.Made(s)
    }

    /** All that was sent and is not in `before` was made under the live keys. */
    ghost predicate Since(before: set<Sealed>)
      reads `sent, record`wEpoch, record`ctx, record`lastCtx
    {
      before <= sent && forall s :: s in sent ==> s in before || record.Made(s)
    }

    ghost predicate NewPackets(ps: seq<seq<Sealed>>)
      reads `mtu, record`wEpoch, record`ctx, record`lastCtx
    {
      forall i :: 0 <= i < |ps| ==> NewPacket(ps[i])
    }

    /**
    `dtls1_flush_flight`, or `dtls1_retransmit_outgoing_messages` if `rewind`: that starts the flight
    again from its first byte. When the flight is out, the packets taken since it was begun are a
    complete pass over it.
    */
    method Flush(rewind: bool, shutDown: bool, random: Random, mayQuery: bool, queried: int, flushed: bool)
      returns (r: FlightResult)
      requires Valid() && RandomBytes(random)
      modifies this, bio
      modifies record`sealed, record`wraps, record.writeSequence, record.lastWriteSequence
      ensures Valid() && mtu == if shutDown then old(mtu) else MtuToUse(old(mtu), mayQuery, queried)
      ensures queued == old(queued) && outgoing == old(outgoing) && numbers == old(numbers)
      ensures old(packets) <= packets && NewPackets(packets[|old(packets)|..]) && Since(old(sent))
      ensures passStart == if rewind then |old(packets)| else old(passStart)
      ensures outgoingComplete == (old(outgoingComplete) || !rewind)
      ensures rewind || old(InPass()) ==> InPass() || (r == FlightFailed && SomeStuck(mtu))
      ensures shutDown ==> r == FlightFailed && packets == old(packets)
      ensures shutDown ==> Pos() == if rewind then Position(0, 0) else old(Pos())
      ensures r == FlightDone || r == FlightUnflushed ==>
        Pos() == Position(|outgoing|, 0) && flushed == (r == FlightDone)
      ensures r == FlightFailed ==> shutDown || Hindered(mtu)
      ensures old(!shutDown && AbleFrom(if rewind then Position(0, 0) else Pos(), MtuToUse(mtu, mayQuery, queried)) &&
                  TakesAll(bio.script, bio.calls)) ==>
              r == if flushed then FlightDone else FlightUnflushed
    {
      hide Sender.Hindered, Sender.SomeStuck, Packet, FlightOk, MtuToUse, RecordWriter.Valid, TakesAll, RecordOk;
      BeginFlush(rewind);
      r := SendFlight(shutDown, random, mayQuery, queried, flushed);
    }

    method AddHeader(cbb: FixedCbb, h: Header) returns (ok: bool)
      requires cbb.len == 0 && HM_HEADER_LENGTH <= cbb.buf.Length
      modifies cbb, cbb.buf
      ensures ok && cbb.len == HM_HEADER_LENGTH && cbb.Contents() == HeaderBytes(h)
    {
      hide BigEndian.Encode;
      assert cbb.Contents() + [h.kind] == [h.kind];
      ok := cbb.Add([h.kind]);
      if ok { ok := cbb.Add(BigEndian.Encode(h.msgLen, 3)); }
      if ok { ok := cbb.Add(BigEndian.Encode(h.seqnum, 2)); }
      if ok { ok := cbb.Add(BigEndian.Encode(h.fragOff, 3)); }
      if ok { ok := cbb.Add(BigEndian.Encode(h.fragLen, 3)); }
    }

    /** The fragment of message `i` is put together in a fixed buffer, which is always large enough. */
    method BuildFragment(h: Header, offset: nat, chunk: Octets, capacity: nat) returns (ok: bool, text: Octets)
      requires HM_HEADER_LENGTH + |chunk| <= capacity
      ensures ok && text == HeaderBytes(Header(h.kind, h.msgLen, h.seqnum, offset, |chunk|)) + chunk
    {
      var cbb := new FixedCbb(capacity);
      ok := AddHeader(cbb, Header(h.kind, h.msgLen, h.seqnum, offset, |chunk|));
      if ok { ok := cbb.Add(chunk); }
      text := cbb.buf[..cbb.len];
    }
  }

  /** A queued message parses as one fragment that is the whole of it. */
  lemma SerializedMessage(m: Message, k: nat, data: Octets)
    requires |m.body| < 0x100_0000 && k < U16 && data == MessageBytes(m.kind, k, m.body)
    ensures ParseFragment(data) == Some(Fragment(Header(m.kind, |m.body|, k, 0, |m.body|), m.body, []))
    ensures BodyOf(Outgoing(data, 0, false)) == m.body
  {
    var h := Header(m.kind, |m.body|, k, 0, |m.body|);
    ParseUndoesFragment(h, m.body, []);
    assert HeaderBytes(h) + m.body + [] == data;
    assert data[HM_HEADER_LENGTH..] == m.body;
  }

  lemma {:induction false} WalkStays(flight: seq<Outgoing>, m: Outgoing, p: Position, pieces: seq<Piece>)
    requires Walk(flight, p, pieces).Some?
    ensures Walk(flight + [m], p, pieces) == Walk(flight, p, pieces)
    decreases |pieces|
  {
    if pieces != [] { WalkStays(flight, m, After(flight, p, pieces[0]), pieces[1..]); }
  }
}
