/**
The non-blocking TLS write path: records are sealed into a pending handshake flight or into the
write buffer, and leave through a transport that takes part of the bytes, or none.

`Valid` is the order of the ciphertext: what the transport has taken, then the write buffer, then
the unsent rest of the flight, is exactly the records sealed so far, in the order of sealing.
*/
module TlsWriter {
  import opened Bytes
  import opened AeadContext
  import opened TlsBuffer

  const MAX_PLAIN_LENGTH: nat := 16384
  const RT_HANDSHAKE: Byte := 22
  const RT_CHANGE_CIPHER_SPEC: Byte := 20
  const RT_APPLICATION_DATA: Byte := 23
  const INT_MAX: nat := 0x7fff_ffff
  // two record headers and twice what an AEAD may add: the most that sealing adds to a text
  const MAX_SEAL_OVERHEAD: nat := 2 * 5 + 2 * (256 + 64)

  /** One record sealed: its type, its text, and which attempt at sealing made which bytes of it. */
  datatype Record = Record(kind: Byte, text: Octets, attempt: nat, bytes: Octets)

  function Ciphertext(records: seq<Record>): Octets
  {
    if records == [] then [] else Ciphertext(records[..|records| - 1]) + records[|records| - 1].bytes
  }

  /** Taken, buffered and unsent bytes are the records in order. */
  ghost predicate Fifo(taken: Octets, buffered: Octets, unsent: Octets, records: seq<Record>)
  {
    taken + buffered + unsent == Ciphertext(records)
  }

  lemma FifoSeal(taken: Octets, buffered: Octets, unsent: Octets, records: seq<Record>, r: Record)
    requires Fifo(taken, buffered, unsent, records)
    ensures Fifo(taken, buffered, unsent + r.bytes, records + [r])
  {
    assert (records + [r])[..|records|] == records;
    assert taken + buffered + (unsent + r.bytes) == taken + buffered + unsent + r.bytes;
  }

  lemma FifoSealBuffered(taken: Octets, buffered: Octets, records: seq<Record>, r: Record)
    requires Fifo(taken, buffered, [], records)
    ensures Fifo(taken, buffered + r.bytes, [], records + [r])
  {
    assert (records + [r])[..|records|] == records;
    assert taken + (buffered + r.bytes) + [] == taken + buffered + [] + r.bytes;
  }

  lemma FifoWrite(taken: Octets, buffered: Octets, n: nat, unsent: Octets, records: seq<Record>)
    requires Fifo(taken, buffered, unsent, records) && n <= |buffered|
    ensures Fifo(taken + buffered[..n], buffered[n..], unsent, records)
  {
    assert buffered[..n] + buffered[n..] == buffered;
    assert taken + buffered[..n] + buffered[n..] == taken + (buffered[..n] + buffered[n..]);
  }

  lemma FifoWriteFlight(taken: Octets, unsent: Octets, n: nat, records: seq<Record>)
    requires Fifo(taken, [], unsent, records) && n <= |unsent|
    ensures Fifo(taken + unsent[..n], [], unsent[n..], records)
  {
    assert unsent[..n] + unsent[n..] == unsent;
    assert taken + unsent[..n] + [] + unsent[n..] == taken + [] + (unsent[..n] + unsent[n..]);
  }

  lemma FifoMove(taken: Octets, unsent: Octets, records: seq<Record>)
    requires Fifo(taken, [], unsent, records)
    ensures Fifo(taken, [] + unsent, [], records)
  {
    assert taken + ([] + unsent) + [] == taken + [] + unsent;
  }

  lemma FifoDone(taken: Octets, records: seq<Record>)
    requires Fifo(taken, [], [], records)
    ensures taken == Ciphertext(records)
  {
    assert taken + [] + [] == taken;
  }

  /** A byte stream transport: call `n` takes at most `script(n)` bytes, or none. */
  class Bio {
    const script: nat -> int
    var calls: nat
    var taken: Octets

    constructor (script: nat -> int)
      ensures taken == [] && calls == 0 && this.script == script
    {
      this.script, calls, taken := script, 0, [];
    }

    /** `BIO_write`: a positive result is the number of bytes taken. */
    method Write(data: Octets) returns (r: int)
      requires data != []
      modifies this
      ensures calls == old(calls) + 1 && r == if script(old(calls)) > |data| then |data| else script(old(calls))
      ensures taken == if r > 0 then old(taken) + data[..r] else old(taken)
    {
      r := script(calls);
      calls := calls + 1;
      if r > |data| { r := |data|; }
      if r > 0 { taken := taken + data[..r]; }
    }

    /** `BIO_flush`. */
    method Flush() returns (r: int)
      modifies this
      ensures calls == old(calls) + 1 && r == script(old(calls)) && taken == old(taken)
    {
      r := script(calls);
      calls := calls + 1;
    }
  }

  /** What sealing attempt `n` yields for a type and a text: `tls_seal_record` under the current keys. */
  type Sealer = (nat, Byte, Octets) -> Option<Octets>

  /** The bytes of every record are what its own attempt made of its own text, and no attempt was used twice. */
  ghost predicate Genuine(records: seq<Record>, seal: Sealer, attempts: nat)
  {
    && (forall i :: 0 <= i < |records| ==> IsSealed(records[i], seal) && records[i].attempt < attempts)
    && forall i, j :: 0 <= i < j < |records| ==> records[i].attempt < records[j].attempt
  }

  ghost predicate IsSealed(r: Record, seal: Sealer)
  {
    seal(r.attempt, r.kind, r.text) == Some(r.bytes)
  }

  lemma GenuineLater(records: seq<Record>, seal: Sealer, attempts: nat, later: nat)
    requires Genuine(records, seal, attempts) && attempts <= later
    ensures Genuine(records, seal, later)
  {
  }

  lemma GenuineMore(records: seq<Record>, seal: Sealer, attempt: nat, kind: Byte, text: Octets, bytes: Octets)
    requires Genuine(records, seal, attempt) && seal(attempt, kind, text) == Some(bytes)
    ensures Genuine(records + [Record(kind, text, attempt, bytes)], seal, attempt + 1)
  {
  }

  /** The sealed texts one after another. */
  function OnWire(records: seq<Record>, seal: Sealer): Octets
  {
    if records == [] then []
    else
      var r := records[|records| - 1];
      OnWire(records[..|records| - 1], seal) +
      match seal(r.attempt, r.kind, r.text) case Some(bytes) => bytes case None => []
  }

  lemma {:induction false} GenuineOnWire(records: seq<Record>, seal: Sealer, attempts: nat)
    requires Genuine(records, seal, attempts)
    ensures Ciphertext(records) == OnWire(records, seal)
  {
    if records != [] {
      var n := |records| - 1;
      assert IsSealed(records[n], seal);
      forall i | 0 <= i < n ensures records[..n][i] == records[i] {}
      GenuineOnWire(records[..n], seal, attempts);
    }
  }

  /** Sealing never adds more than `SSL_max_seal_overhead`. */
  ghost predicate Bounded(seal: Sealer, overhead: nat)
  {
    forall n: nat, kind: Byte, text: Octets ::
      seal(n, kind, text).Some? ==> |seal(n, kind, text).value| <= |text| + overhead
  }

  /** A transport that always takes something from its call `from` on, and keys that seal every text that fits. */
  ghost predicate Willing(script: nat -> int, from: nat) { forall n: nat :: n >= from ==> script(n) > 0 }

  ghost predicate SealsAll(seal: Sealer)
  {
    forall n: nat, kind: Byte, text: Octets :: |text| <= MAX_PLAIN_LENGTH ==> seal(n, kind, text).Some?
  }

  class TlsWriter {
    const bio: Bio
    const buffer: SSLBuffer
    const seal: Sealer
    const overhead: nat
    const maxSendFragment: nat
    const partialWrite: bool
    const acceptMovingBuffer: bool
    var attempts: nat
    var pendingFlight: Option<Octets>
    var pendingFlightOffset: nat
    var wnum: nat
    var wpendPending: bool
    var wpendTot: nat
    var wpendBuf: int
    var wpendType: Byte
    var wpendRet: nat
    // every record sealed, in order
    ghost var records: seq<Record>
    // the application data reported as written so far, and what has been sealed since the last report
    ghost var stream: Octets
    ghost var segment: Octets

    /** The part of the flight the transport has not taken. */
    function Unsent(): Octets
      requires pendingFlight.Some? ==> pendingFlightOffset <= |pendingFlight.value|
      reads this
    {
      if pendingFlight.Some? then pendingFlight.value[pendingFlightOffset..] else []
    }

    ghost predicate Valid()
      reads this, bio, buffer, buffer.Memory()
    {
      && buffer.Valid() && Bounded(seal, overhead)
      && (if pendingFlight.Some? then pendingFlightOffset <= |pendingFlight.value| else pendingFlightOffset == 0)
      && Fifo(bio.taken, buffer.Contents(), Unsent(), records)
      && wpendRet == wpendTot && (wpendPending ==> wpendTot > 0)
      && (wpendPending && wpendType == RT_APPLICATION_DATA ==> wpendTot <= maxSendFragment)
      && 0 < maxSendFragment <= MAX_PLAIN_LENGTH && overhead <= MAX_SEAL_OVERHEAD
      && Accounted(records, stream + segment, maxSendFragment) && Genuine(records, seal, attempts)
    }

    constructor (script: nat -> int, seal: Sealer, overhead: nat, maxSendFragment: nat, partialWrite: bool,
                 moving: bool)
      requires Bounded(seal, overhead) && overhead <= MAX_SEAL_OVERHEAD && 0 < maxSendFragment <= MAX_PLAIN_LENGTH
      ensures Valid() && fresh(bio) && fresh(buffer) && records == [] && pendingFlight == None
      ensures wnum == 0 && !wpendPending && buffer.Contents() == [] && buffer.buf == null
      ensures stream == [] && segment == [] && pendingFlightOffset == 0 && bio.taken == []
      ensures this.maxSendFragment == maxSendFragment && this.seal == seal
    {
      bio := new Bio(script);
      buffer := new SSLBuffer();
      this.seal, this.overhead, this.maxSendFragment := seal, overhead, maxSendFragment;
      this.partialWrite, acceptMovingBuffer := partialWrite, moving;
      attempts, pendingFlight, pendingFlightOffset := 0, None, 0;
      wnum, wpendPending, wpendTot, wpendBuf, wpendType, wpendRet := 0, false, 0, 0, 0, 0;
      records, stream, segment := [], [], [];
    }

    /** `tls_seal_record` into `maxOut` bytes. */
    method SealRecord(kind: Byte, text: Octets, maxOut: nat) returns (out: Option<Octets>)
      requires Bounded(seal, overhead) && maxOut >= |text| + overhead
      modifies this`attempts
      ensures attempts == old(attempts) + 1 && out == seal(old(attempts), kind, text)
      ensures out.Some? ==> |out.value| <= maxOut
      ensures SealsAll(seal) && |text| <= MAX_PLAIN_LENGTH ==> out.Some?
    {
      out := seal(attempts, kind, text);
      attempts := attempts + 1;
    }

    /** `add_record_to_flight`; never called while a flight is partly written. */
    method AddRecordToFlight(kind: Byte, text: Octets) returns (ok: bool)
      requires Valid() && pendingFlightOffset == 0 && kind != RT_APPLICATION_DATA
      modifies this`attempts, this`pendingFlight, this`records
      ensures Valid() && pendingFlightOffset == 0
      ensures if ok then OneMore(old(records), records, kind, text) else records == old(records)
    {
      hide Accounted, Genuine, Ciphertext, AlignOffset, Low16, Bounded, Fifo, SSLBuffer.Shape;
      StartFlight();
      ghost var attempt := attempts;
      var out := SealRecord(kind, text, |text| + overhead);
      GenuineLater(records, seal, attempt, attempts);
      if out.None? {
        return false;
      }
      Extend(kind, text, out.value, attempt);
      return true;
    }

    /** An empty flight, if there is none. */
    method StartFlight()
      requires Valid() && pendingFlightOffset == 0
      modifies this`pendingFlight
      ensures Valid() && pendingFlight.Some?
    {
      hide Accounted, Genuine, Ciphertext, AlignOffset, Low16, Bounded, Fifo, SSLBuffer.Shape;
      ghost var unsent := Unsent();
      if pendingFlight.None? {
        pendingFlight := Some([]);
        assert Unsent() == unsent;
      }
    }

    /** A sealed record goes to the end of the flight. */
    method Extend(kind: Byte, text: Octets, bytes: Octets, ghost attempt: nat)
      requires Genuine(records, seal, attempt) && attempt < attempts && seal(attempt, kind, text) == Some(bytes)
      requires Valid() && pendingFlightOffset == 0 && pendingFlight.Some? && kind != RT_APPLICATION_DATA
      modifies this`pendingFlight, this`records
      ensures Valid() && OneMore(old(records), records, kind, text)
    {
      hide Accounted, Genuine, Ciphertext, AlignOffset, Low16, Bounded, Fifo, SSLBuffer.Shape;
      ghost var unsent := Unsent();
      ghost var r := Record(kind, text, attempt, bytes);
      FifoSeal(bio.taken, buffer.Contents(), unsent, records, r);
      AccountOther(records, stream + segment, maxSendFragment, r);
      GenuineMore(records, seal, attempt, kind, text, bytes);
      GenuineLater(records + [r], seal, attempt + 1, attempts);
      records := records + [r];
      pendingFlight := Some(pendingFlight.value + bytes);
      assert Unsent() == unsent + bytes;
    }

    /** `ssl3_add_message`: a message in records of at most `max_send_fragment`, at least one. */
    method AddMessage(msg: Octets) returns (ok: bool)
      requires Valid() && pendingFlightOffset == 0
      modifies this`attempts, this`pendingFlight, this`records
      ensures Valid() && pendingFlightOffset == 0 && FullRecords(old(records), records, maxSendFragment)
      ensures ok ==> CarriedSince(old(records), records, RT_HANDSHAKE, msg, maxSendFragment)
    {
      hide Accounted, Genuine, Ciphertext, AlignOffset, Low16, Bounded, Fifo, SSLBuffer.Shape;
      var rest := msg;
      ghost var done: Octets := [];
      var first := true;
      while first || |rest| > 0
        invariant Valid() && pendingFlightOffset == 0 && done + rest == msg
        invariant CarriedSince(old(records), records, RT_HANDSHAKE, done, maxSendFragment)
        invariant FullRecords(old(records), records, maxSendFragment)
        invariant first || |rest| > 0 ==> AllFull(old(records), records, maxSendFragment)
        decreases |rest|, first
      {
        var n := if |rest| < maxSendFragment then |rest| else maxSendFragment;
        ghost var before := records;
        ok := AddRecordToFlight(RT_HANDSHAKE, rest[..n]);
        if !ok { return; }
        CarriesMore(old(records), before, records, RT_HANDSHAKE, done, rest[..n], maxSendFragment);
        MoveChunk(done, rest, n);
        done := done + rest[..n];
        rest := rest[n..];
        first := false;
      }
      assert done + [] == done;
      return true;
    }

    /** One write: what the transport takes leaves the buffer. */
    method FlushSome() returns (r: int)
      requires Valid() && buffer.size > 0
      modifies bio, buffer`offset, buffer`size, buffer`cap, buffer`start
      ensures Valid() && (r > 0 ==> buffer.size < old(buffer.size))
      ensures bio.calls >= old(bio.calls) && (old(Willing(bio.script, bio.calls)) ==> r > 0)
    {
      hide Accounted, Genuine, Ciphertext, AlignOffset, Low16, Fifo, Bounded;
      ghost var taken, data, rest := bio.taken, buffer.Contents(), Unsent();
      r := bio.Write(buffer.buf[buffer.offset..buffer.offset + buffer.size]);
      if r > 0 {
        buffer.Consume(r);
        FifoWrite(taken, data, r, rest, records);
      }
    }

    /** `tls_write_buffer_flush`: write until the buffer is empty or the transport stops. */
    method FlushWriteBuffer() returns (r: int)
      requires Valid()
      modifies bio, buffer
      ensures Valid() && buffer.buf in {null, old(buffer.buf)}
      ensures r > 0 ==> buffer.Contents() == []
      ensures bio.calls >= old(bio.calls) && (old(Willing(bio.script, bio.calls)) ==> r > 0)
    {
      while buffer.size > 0
        invariant Valid() && buffer.buf == old(buffer.buf) && bio.calls >= old(bio.calls)
        decreases buffer.size
      {
        r := FlushSome();
        if r <= 0 { return; }
      }
      buffer.Clear();
      return 1;
    }

    /** The length of the flight fits an `int`. */
    predicate FlightSized()
      reads this
    {
      pendingFlight.None? || |pendingFlight.value| <= INT_MAX
    }

    /** `ssl3_flush_flight`. */
    method FlushFlight(shutDown: bool) returns (r: int)
      requires Valid()
      modifies this`attempts, this`pendingFlight, this`pendingFlightOffset, bio, buffer
      ensures Valid() && records == old(records)
      ensures r > 0 ==> pendingFlight == None
      ensures r > 0 && old(pendingFlight).Some? ==> bio.taken == OnWire(records, seal)
      ensures old(pendingFlight).None? ==> r == 1
      ensures !shutDown && old(Willing(bio.script, bio.calls) && FlightSized()) ==> r > 0
      ensures buffer.buf in {null, old(buffer.buf)}
    {
      hide Accounted, Genuine, Ciphertext, OnWire, AlignOffset, Low16;
      GenuineOnWire(records, seal, attempts);
      if pendingFlight.None? {
        return 1;
      }
      if shutDown || |pendingFlight.value| > INT_MAX {
        return -1;
      }
      // data in the write buffer was sealed before anything in the flight
      if buffer.size > 0 {
        r := FlushWriteBuffer();
        if r <= 0 { return; }
      }
      r := WriteWholeFlight();
      if r <= 0 { return; }
      r := bio.Flush();
      if r <= 0 {
        return -1;
      }
      pendingFlight, pendingFlightOffset := None, 0;
      return 1;
    }

    /** The write loop of `ssl3_flush_flight`. */
    method WriteWholeFlight() returns (r: int)
      requires Valid() && buffer.Contents() == [] && pendingFlight.Some?
      modifies this`pendingFlightOffset, bio
      ensures Valid() && buffer.Contents() == []
      ensures r > 0 ==>
        pendingFlightOffset == |pendingFlight.value| && Unsent() == [] && bio.taken == Ciphertext(records)
      ensures bio.calls >= old(bio.calls) && (old(Willing(bio.script, bio.calls)) ==> r > 0)
    {
      while pendingFlightOffset < |pendingFlight.value|
        invariant Valid() && buffer.Contents() == [] && bio.calls >= old(bio.calls)
        decreases |pendingFlight.value| - pendingFlightOffset
      {
        r := WriteFlight();
        if r <= 0 { return; }
      }
      assert Unsent() == [];
      FifoDone(bio.taken, records);
      r := 1;
    }

    /** One `BIO_write` of `ssl3_flush_flight`. */
    method WriteFlight() returns (r: int)
      requires Valid() && buffer.Contents() == [] && pendingFlight.Some? && pendingFlightOffset < |pendingFlight.value|
      modifies this`pendingFlightOffset, bio
      ensures Valid() && pendingFlightOffset == old(pendingFlightOffset) + if r > 0 then r else 0
      ensures buffer.Contents() == [] && bio.calls >= old(bio.calls) && (old(Willing(bio.script, bio.calls)) ==> r > 0)
    {
      hide Accounted, Genuine, Ciphertext, AlignOffset, Low16, Bounded, Fifo, SSLBuffer.Shape;
      ghost var taken := bio.taken;
      var data := pendingFlight.value[pendingFlightOffset..];
      r := bio.Write(data);
      if r > 0 {
        FifoWriteFlight(taken, data, r, records);
        pendingFlightOffset := pendingFlightOffset + r;
        assert Unsent() == data[r..];
      }
    }

    // ---- single records ----

    /** `ssl3_write_pending`: the retry must offer at least as much, of the same type, from the same place. */
    method WritePending(kind: Byte, addr: int, len: nat) returns (r: int)
      requires Valid() && wpendPending
      modifies this`attempts, this`wpendPending, bio, buffer
      ensures Valid() && records == old(records)
      ensures r > 0 ==> !wpendPending && r == wpendTot <= len && buffer.Contents() == [] && wpendType == kind
      ensures r <= 0 ==> wpendPending
      ensures buffer.buf in {null, old(buffer.buf)} && bio.calls >= old(bio.calls)
      ensures old(Willing(bio.script, bio.calls)) && wpendTot <= len && wpendType == kind && SamePlace(addr) ==> r > 0
    {
      hide Accounted, Genuine, Ciphertext, AlignOffset, Low16, Bounded, Fifo, SSLBuffer.Shape, PastWord;
      if wpendTot > len || (!acceptMovingBuffer && wpendBuf != addr) || wpendType != kind {
        // "bad write retry"
        return -1;
      }
      r := FlushWriteBuffer();
      if r <= 0 { return; }
      wpendPending := false;
      return wpendRet;
    }

    /** A retry may offer its bytes from there. */
    predicate SamePlace(addr: int)
      reads this
    {
      acceptMovingBuffer || wpendBuf == addr
    }

    /** What `do_ssl3_write` asks `EnsureCap` for: the rest of the flight and a record of `len` bytes. */
    function MaxOut(len: nat): nat
      requires Valid()
      reads this, bio, buffer, buffer.Memory()
    {
      |Unsent()| + len + overhead
    }

    /**
    The write buffer's offset cannot go wrong: the capacity is refused, there already, or ends before
    2^16 from where the allocation is aligned. Without a flight to go first, it always is so.
    */
    predicate NoOffsetWrap(len: nat, alignPrefix: nat, address: nat)
      requires Valid()
      reads this, bio, buffer, buffer.Memory()
    {
      len > 0 ==> !PastWord(|Unsent()| + alignPrefix, MaxOut(len), address) || buffer.cap >= MaxOut(len)
    }

    lemma NoFlightNoWrap(len: nat, alignPrefix: nat, address: nat)
      requires Valid() && Unsent() == [] && len <= MAX_PLAIN_LENGTH
      ensures NoOffsetWrap(len, alignPrefix, address)
    {
    }

    /** The part of `do_ssl3_write` that fills the write buffer: the flight first, then the record. */
    method FillWriteBuffer(kind: Byte, data: Octets, alignPrefix: nat, address: nat) returns (ok: bool)
      requires Valid() && buffer.Contents() == [] && data != [] && NoOffsetWrap(|data|, alignPrefix, address)
      requires kind == RT_APPLICATION_DATA ==> |data| <= maxSendFragment
      modifies this`attempts, this`pendingFlight, this`pendingFlightOffset, this`records, this`segment, buffer,
               buffer.Memory()
      ensures Valid() && (ok ==> pendingFlight == None) && pendingFlightOffset <= old(pendingFlightOffset)
      ensures if ok then Sealed(old(records), old(segment), kind, data)
              else records == old(records) && segment == old(segment)
      ensures old(MaxOut(|data|)) >= U16 ==> !ok && unchanged(this, buffer)
      ensures SealsAll(seal) && |data| <= MAX_PLAIN_LENGTH && old(MaxOut(|data|)) < U16 ==> ok
      ensures buffer.buf == old(buffer.buf) || fresh(buffer.buf)
    {
      hide Accounted, Genuine, Ciphertext, AlignOffset, Low16, Fifo, Bounded, SSLBuffer.Shape, PastWord, SealsAll,
           TlsWriter.NoOffsetWrap;
      ok := MakeRoom(|data|, alignPrefix, address);
      if !ok { return; }
      MoveFlight();
      ok := SealIntoBuffer(kind, data);
    }

    /** Room for the flight and the record, if a buffer may be as large. */
    method MakeRoom(len: nat, alignPrefix: nat, address: nat) returns (ok: bool)
      requires Valid() && buffer.Contents() == [] && len > 0 && NoOffsetWrap(len, alignPrefix, address)
      modifies buffer
      ensures Valid() && buffer.Contents() == [] && (ok <==> old(MaxOut(len)) < U16)
      ensures ok ==> buffer.cap >= MaxOut(len)
      ensures !ok ==> unchanged(buffer)
      ensures buffer.buf == old(buffer.buf) || fresh(buffer.buf)
    {
      hide Accounted, Genuine, Ciphertext, AlignOffset, Low16, Fifo, Bounded;
      var flightLen := if pendingFlight.Some? then |pendingFlight.value| - pendingFlightOffset else 0;
      ok := buffer.EnsureCap(flightLen + alignPrefix, len + overhead + flightLen, address);
    }

    /** One record with this text has been sealed, and application data counted in. */
    ghost predicate Sealed(before: seq<Record>, counted: Octets, kind: Byte, text: Octets)
      reads this
    {
      && OneMore(before, records, kind, text)
      && segment == if kind == RT_APPLICATION_DATA then counted + text else counted
    }

    /** Unflushed handshake data goes out ahead of the record. */
    method MoveFlight()
      requires Valid() && buffer.Contents() == [] && |Unsent()| <= buffer.cap
      modifies this`pendingFlight, this`pendingFlightOffset, buffer`size, buffer.Memory()
      ensures Valid() && pendingFlight == None && buffer.size == |old(Unsent())|
    {
      hide Accounted, Genuine, Ciphertext, AlignOffset, Low16, Bounded, Fifo;
      if pendingFlight.Some? {
        var flight := pendingFlight.value[pendingFlightOffset..];
        buffer.Append(flight);
        FifoMove(bio.taken, flight, records);
        pendingFlight, pendingFlightOffset := None, 0;
      }
    }

    method SealIntoBuffer(kind: Byte, data: Octets) returns (ok: bool)
      requires Valid() && pendingFlight == None && buffer.cap - buffer.size >= |data| + overhead
      requires kind == RT_APPLICATION_DATA ==> |data| <= maxSendFragment
      modifies this`attempts, this`records, this`segment, buffer`size, buffer.Memory()
      ensures Valid()
      ensures SealsAll(seal) && |data| <= MAX_PLAIN_LENGTH ==> ok
      ensures if ok then Sealed(old(records), old(segment), kind, data)
              else records == old(records) && segment == old(segment)
    {
      hide Accounted, Genuine, Ciphertext, AlignOffset, Low16, PastWord, Fifo, Bounded, SealsAll, SSLBuffer.Shape;
      ghost var attempt := attempts;
      var out := SealRecord(kind, data, buffer.cap - buffer.size);
      GenuineLater(records, seal, attempt, attempts);
      if out.None? {
        return false;
      }
      ghost var r := Record(kind, data, attempt, out.value);
      GenuineMore(records, seal, attempt, kind, data, out.value);
      FifoSealBuffered(bio.taken, buffer.Contents(), records, r);
      if kind == RT_APPLICATION_DATA {
        AccountMore(records, stream, segment, maxSendFragment, r);
      } else {
        AccountOther(records, stream + segment, maxSendFragment, r);
      }
      buffer.Append(out.value);
      records := records + [r];
      segment := if kind == RT_APPLICATION_DATA then segment + data else segment;
      return true;
    }

    /**
    `do_ssl3_write`: a pending record is finished first, and then nothing new is sealed. A record that
    does not fit into the write buffer behind the flight is refused.
    */
    method DoWrite(kind: Byte, data: Octets, addr: int, alignPrefix: nat, address: nat) returns (r: int)
      requires Valid() && (!wpendPending ==> NoOffsetWrap(|data|, alignPrefix, address))
      requires kind == RT_APPLICATION_DATA ==> |data| <= maxSendFragment
      modifies this`attempts, this`pendingFlight, this`pendingFlightOffset, this`records, this`segment,
               this`wpendPending,
               this`wpendTot, this`wpendBuf, this`wpendType, this`wpendRet, bio, buffer, buffer.Memory()
      ensures Valid() && pendingFlightOffset <= old(pendingFlightOffset)
      ensures buffer.buf in {null, old(buffer.buf)} || fresh(buffer.buf)
      ensures r > 0 ==> !wpendPending && buffer.Contents() == []
      ensures old(wpendPending) ==> records == old(records) && segment == old(segment) && Unsent() == old(Unsent())
      ensures old(wpendPending) ==> wpendTot == old(wpendTot) && wpendType == old(wpendType)
      ensures old(wpendPending) && r > 0 ==> r == wpendTot <= |data| && wpendType == kind
      ensures old(wpendPending) && r <= 0 ==> wpendPending
      ensures !old(wpendPending) && r > 0 ==>
        r == |data| <= MAX_PLAIN_LENGTH && Sealed(old(records), old(segment), kind, data) && pendingFlight == None
      ensures !old(wpendPending) && r <= 0 ==>
        if wpendPending
        then
          && wpendTot == |data| <= MAX_PLAIN_LENGTH && wpendType == kind
          && Sealed(old(records), old(segment), kind, data)
        else records == old(records) && segment == old(segment)
      ensures !old(wpendPending) && data != [] && old(MaxOut(|data|)) >= U16 ==> r == -1 && records == old(records)
      ensures bio.calls >= old(bio.calls) && (old(Smooth() && Accepts(kind, |data|, addr)) ==> r > 0)
    {
      hide Accounted, Genuine, Ciphertext, AlignOffset, Low16, Bounded, Fifo, SSLBuffer.Shape, PastWord;
      if wpendPending {
        r := WritePending(kind, addr, |data|);
        return;
      }
      r := StartRecord(kind, data, addr, alignPrefix, address);
      if r <= 0 { return; }
      r := WritePending(kind, addr, |data|);
    }

    /** Nothing outside the writer holds it up. */
    ghost predicate Smooth()
      reads this, bio
    {
      SealsAll(seal) && Willing(bio.script, bio.calls)
    }

    /** A write of `len` bytes is a proper retry, or begins with an empty buffer and fits in. */
    ghost predicate Accepts(kind: Byte, len: nat, addr: int)
      requires Valid()
      reads this, bio, buffer, buffer.Memory()
    {
      if wpendPending then wpendTot <= len && wpendType == kind && SamePlace(addr)
      else buffer.size == 0 && 0 < len <= MAX_PLAIN_LENGTH && MaxOut(len) < U16
    }

    /** The part of `do_ssl3_write` before the write: seal a record and remember the call. */
    method StartRecord(kind: Byte, data: Octets, addr: int, alignPrefix: nat, address: nat) returns (r: int)
      requires Valid() && NoOffsetWrap(|data|, alignPrefix, address) && !wpendPending
      requires kind == RT_APPLICATION_DATA ==> |data| <= maxSendFragment
      modifies this`attempts, this`pendingFlight, this`pendingFlightOffset, this`records, this`segment,
               this`wpendPending,
               this`wpendTot, this`wpendBuf, this`wpendType, this`wpendRet, buffer, buffer.Memory()
      ensures Valid() && pendingFlightOffset <= old(pendingFlightOffset)
      ensures buffer.buf == old(buffer.buf) || fresh(buffer.buf)
      ensures r <= 0 ==> records == old(records) && segment == old(segment) && !wpendPending
      ensures r > 0 ==>
        && wpendPending && wpendTot == |data| <= MAX_PLAIN_LENGTH && wpendType == kind && wpendBuf == addr
        && Sealed(old(records), old(segment), kind, data) && pendingFlight == None
      ensures data != [] && old(MaxOut(|data|)) >= U16 ==> r == -1
      ensures SealsAll(seal) && 0 < |data| <= MAX_PLAIN_LENGTH && old(buffer.size == 0 && MaxOut(|data|) < U16) ==>
        r > 0
    {
      hide Accounted, Genuine, Ciphertext, AlignOffset, Low16, Bounded, Fifo, SSLBuffer.Shape, PastWord;
      if |data| > MAX_PLAIN_LENGTH || buffer.size > 0 {
        return -1;
      }
      if |data| == 0 {
        return 0;
      }
      var ok := FillWriteBuffer(kind, data, alignPrefix, address);
      if !ok {
        return -1;
      }
      Memorize(kind, addr, |data|);
      return 1;
    }

    /** The arguments that a retry is compared with. */
    method Memorize(kind: Byte, addr: int, len: nat)
      requires Valid() && len > 0 && (kind == RT_APPLICATION_DATA ==> len <= maxSendFragment)
      modifies this`wpendPending, this`wpendTot, this`wpendBuf, this`wpendType, this`wpendRet
      ensures Valid() && wpendPending && wpendTot == len && wpendType == kind && wpendBuf == addr
    {
      hide Accounted, Genuine, Ciphertext, AlignOffset, Low16, Fifo, Bounded;
      wpendTot, wpendBuf, wpendType, wpendRet, wpendPending := len, addr, kind, len, true;
    }

    // ---- application data ----

    /**
    The bookkeeping is right for a caller that offers `data`: what has been sealed since the last
    report is a prefix of it, `tot` bytes of which are written and the rest pending. Handshake records
    in between do not matter.
    */
    ghost predicate InStep(data: Octets, tot: nat)
      reads this
    {
      && |segment| == tot + Pending() && segment <= data
      && (wpendPending ==> wpendType == RT_APPLICATION_DATA)
    }

    /** How much is sealed and waits in the write buffer. */
    function Pending(): nat
      reads `wpendPending, `wpendTot
    {
      if wpendPending then wpendTot else 0
    }

    /** The length of the first record of a write of `n` bytes. */
    function ChunkLen(n: nat): nat { if n > maxSendFragment then maxSendFragment else n }

    /** One turn of the loop of `ssl3_write_app_data`: at most a record's worth from `tot` on. */
    method WriteChunk(data: Octets, tot: nat, nw: nat, addr: int, alignPrefix: nat, address: nat, ghost n: nat)
      returns (r: int)
      requires Valid() && tot + n <= |data| && nw == ChunkLen(n) && ChunksFit(n, alignPrefix, address)
      modifies this`attempts, this`pendingFlight, this`pendingFlightOffset, this`records, this`segment,
               this`wpendPending,
               this`wpendTot, this`wpendBuf, this`wpendType, this`wpendRet, bio, buffer, buffer.Memory()
      ensures Valid() && pendingFlightOffset <= old(pendingFlightOffset)
      ensures buffer.buf in {null, old(buffer.buf)} || fresh(buffer.buf)
      ensures r > 0 ==> r <= nw && !wpendPending && buffer.Contents() == [] && ChunksFit(n - r, alignPrefix, address)
      ensures Grown(old(segment), segment, data, tot + old(Pending()), tot + (if r > 0 then r else 0) + Pending())
      ensures records == old(records) ||
              (OneMore(old(records), records, RT_APPLICATION_DATA, data[tot..tot + nw]) && (r > 0 ==> r == nw))
      ensures wpendPending ==> wpendType == if old(wpendPending) then old(wpendType) else RT_APPLICATION_DATA
      ensures old(Smooth() && Accessible(n, addr + tot)) ==>
                r > 0 && Smooth() && (n > r ==> Accessible(n - r, addr + tot + r))
    {
      hide Accounted, Genuine, Ciphertext, AlignOffset, Low16, Fifo, Bounded, SSLBuffer.Shape, PastWord, SealsAll;
      ghost var pending := wpendPending;
      r := DoWrite(RT_APPLICATION_DATA, data[tot..tot + nw], addr + tot, alignPrefix, address);
      if r > 0 && !pending {
        NoFlightNoWrap(ChunkLen(n - r), alignPrefix, address);
      }
    }

    /**
    `ssl3_write_app_data`: what has been sealed grows by the bytes of `data` from behind what was written
    and pending before to behind what is written and pending now, whatever the data. For a caller that
    repeats a blocked write with the same data, or more: when the result `r` is positive, exactly the
    first `r` bytes of it have been sealed since the last positive result, each once and in order;
    otherwise the call can be repeated.
    */
    method WriteAppData(data: Octets, addr: int, alignPrefix: nat, address: nat, shutDown: bool) returns (r: int)
      requires Valid() && (|data| >= wnum ==> ChunksFit(|data| - wnum, alignPrefix, address))
      modifies this, bio, buffer, buffer.Memory()
      ensures Valid() && pendingFlightOffset <= old(pendingFlightOffset)
      ensures buffer.buf in {null, old(buffer.buf)} || fresh(buffer.buf)
      ensures !shutDown && |data| >= old(wnum) ==>
        Grown(old(stream + segment), stream + segment, data, old(wnum + Pending()),
              (if r > 0 then r else wnum) + Pending())
      ensures if r > 0 then segment == [] && wnum == 0 && !wpendPending else stream == old(stream)
      ensures r > 0 ==> r <= |data| && buffer.Contents() == []
      ensures FullRecords(old(records), records, maxSendFragment)
      ensures old(InStep(data, wnum)) && r > 0 ==> stream == old(stream) + data[..r]
      ensures old(InStep(data, wnum)) && r <= 0 ==> InStep(data, wnum)
      ensures old(!shutDown && Smooth() && |data| >= wnum && Accessible(|data| - wnum, addr + wnum)) ==>
                r > 0 && (!partialWrite ==> r == |data|)
      // less data than was already written: an error, after which the count starts from zero again
      ensures !shutDown && |data| < old(wnum) ==>
        && r == -1 && wnum == 0 && unchanged(bio, buffer)
        && unchanged(`records, `stream, `segment, `wpendPending, `wpendTot, `wpendBuf, `wpendType, `pendingFlight,
                     `pendingFlightOffset)
      ensures shutDown ==> r == -1 && unchanged(this, bio, buffer)
    {
      hide Accounted, Genuine, Ciphertext, AlignOffset, Low16, PastWord, Fifo, Bounded, SSLBuffer.Shape, Grown;
      if shutDown {
        return -1;
      }
      var tot := wnum;
      wnum := 0;
      if |data| < tot {
        // "bad length"
        return -1;
      }
      ghost var was, counted, from := stream, segment, tot + Pending();
      r := WriteChunks(data, tot, addr, alignPrefix, address);
      if |counted| == from && counted <= data {
        GrownPrefix(was, counted, stream, segment, data, (if r > 0 then r else wnum) + Pending());
      }
    }

    /**
    The first record a write of `n` bytes seals does not take the buffer's offset past 2^16; later ones
    have no flight before them. A record that is pending is finished first.
    */
    predicate ChunksFit(n: nat, alignPrefix: nat, address: nat)
      requires Valid()
      reads this, bio, buffer, buffer.Memory()
    {
      if !wpendPending then NoOffsetWrap(ChunkLen(n), alignPrefix, address)
      else n > wpendTot ==> !PastWord(|Unsent()| + alignPrefix, MaxOut(ChunkLen(n - wpendTot)), address)
    }

    /**
    `n` more bytes can be written: a pending record is among them and offered again from its place, or
    the buffer is free; and the flight leaves room for the next record behind it.
    */
    ghost predicate Accessible(n: nat, addr: int)
      requires Valid()
      reads this, bio, buffer, buffer.Memory()
    {
      if wpendPending
      then
        && wpendType == RT_APPLICATION_DATA && wpendTot <= n && SamePlace(addr)
        && (n > wpendTot ==> MaxOut(ChunkLen(n - wpendTot)) < U16)
      else buffer.size == 0 && n > 0 && MaxOut(ChunkLen(n)) < U16
    }

    /** The loop of `ssl3_write_app_data`, from byte `done` on. */
    method WriteChunks(data: Octets, done: nat, addr: int, alignPrefix: nat, address: nat) returns (r: int)
      requires Valid() && done <= |data| && wnum == 0 && ChunksFit(|data| - done, alignPrefix, address)
      modifies this, bio, buffer, buffer.Memory()
      ensures Valid() && pendingFlightOffset <= old(pendingFlightOffset)
      ensures buffer.buf in {null, old(buffer.buf)} || fresh(buffer.buf)
      ensures Grown(old(stream + segment), stream + segment, data, done + old(Pending()),
                    (if r > 0 then r else wnum) + Pending())
      ensures if r > 0 then segment == [] && wnum == 0 && !wpendPending else stream == old(stream)
      ensures r > 0 ==> r <= |data| && buffer.Contents() == []
      ensures FullRecords(old(records), records, maxSendFragment)
      ensures old(wpendPending ==> wpendType == RT_APPLICATION_DATA) ==>
                wpendPending ==> wpendType == RT_APPLICATION_DATA
      ensures old(Smooth() && Accessible(|data| - done, addr + done)) ==> r > 0 && (!partialWrite ==> r == |data|)
    {
      hide Accounted, Genuine, Ciphertext, AlignOffset, Low16, PastWord, Fifo, Bounded, SSLBuffer.Shape, Grown,
           TlsWriter.Accessible, TlsWriter.Smooth, TlsWriter.ChunksFit, TlsWriter.Valid,
           TlsWriter.Pending, SSLBuffer.Valid, SSLBuffer.Contents;
      ghost var was, counted, from := stream, segment, done + Pending();
      GrownNot(segment, data, from);
      var tot, n := done, |data| - done;
      while true
        invariant Valid() && n == |data| - tot && done <= tot <= |data| && wnum == 0
        invariant ChunksFit(n, alignPrefix, address) && pendingFlightOffset <= old(pendingFlightOffset)
        invariant AllFull(old(records), records, maxSendFragment)
        invariant stream == was && Grown(counted, segment, data, from, tot + Pending())
        invariant old(wpendPending ==> wpendType == RT_APPLICATION_DATA) ==>
                    wpendPending ==> wpendType == RT_APPLICATION_DATA
        invariant buffer.buf in {null, old(buffer.buf)} || fresh(buffer.buf)
        invariant old(Smooth() && Accessible(|data| - done, addr + done)) ==> Smooth() && Accessible(n, addr + tot)
        decreases n
      {
        ghost var before, middle := segment, tot + Pending();
        var ret := WriteChunk(data, tot, ChunkLen(n), addr, alignPrefix, address, n);
        GrownOn(counted, before, segment, data, from, middle, tot + (if ret > 0 then ret else 0) + Pending());
        if ret <= 0 {
          BlockAt(tot);
          GrownBehind(stream, counted, segment, data, from, tot + Pending());
          return ret;
        }
        if ret == n || partialWrite {
          GrownBehind(stream, counted, segment, data, from, tot + ret + Pending());
          Report();
          AndNone(stream);
          return tot + ret;
        }
        n := n - ret;
        tot := tot + ret;
      }
    }

    /** A blocked write remembers how far it came. */
    method BlockAt(tot: nat)
      requires Valid()
      modifies this`wnum
      ensures Valid() && wnum == tot
    {
      hide Accounted, Genuine, Ciphertext, AlignOffset, Low16, Bounded, Fifo, SSLBuffer.Shape;
      wnum := tot;
    }

    /** A positive result closes the account of what has been sealed since the last one. */
    ghost method Report()
      requires Valid()
      modifies this`stream, this`segment
      ensures Valid() && stream == old(stream) + old(segment) && segment == []
    {
      hide Accounted, Genuine, Ciphertext, AlignOffset, Low16, Bounded, Fifo, SSLBuffer.Shape;
      stream, segment := stream + segment, [];
      assert stream + [] == stream;
    }

    /**
    Why the length may not shrink between retries: the failed call has set the count back to zero, and
    from there no data is in step with what has been sealed.
    */
    lemma CountLost(data: Octets, tot: nat)
      requires InStep(data, tot) && tot > 0
      ensures forall again: Octets :: !InStep(again, 0)
    {
    }

    /**
    What then happens: a caller in step, whose write was blocked after some records, offers less than was
    already written and after that all its data again. The second call seals bytes a second time: all
    those sealed before but as many as were pending.
    */
    method ShortRetry(data: Octets, short: Octets, addr: int, alignPrefix: nat, address: nat) returns (r: int)
      requires Valid() && InStep(data, wnum) && |short| < wnum && ChunksFit(|data|, alignPrefix, address)
      modifies this, bio, buffer, buffer.Memory()
      ensures Valid()
      ensures r > 0 ==>
        && old(Pending()) <= r <= |data| && Texts(App(records)) == stream
        && stream == old(stream) + data[..old(wnum + Pending())] + data[old(Pending())..r]
      ensures old(Smooth() && Accessible(|data|, addr)) ==> r > 0 && (!partialWrite ==> r == |data|)
    {
      hide Accounted, Genuine, Ciphertext, AlignOffset, Low16, PastWord, Fifo, Bounded, SSLBuffer.Shape, Grown,
           TlsWriter.Valid;
      ghost var was, counted := stream, segment;
      var bad := WriteAppData(short, addr, alignPrefix, address, false);
      r := WriteAppData(data, addr, alignPrefix, address, false);
      if r > 0 {
        Reported();
        GrownTwice(was, counted, stream + segment, data, old(Pending()), r);
      }
    }

    /** After a report, the application records carry just what has been reported. */
    lemma Reported()
      requires Valid() && segment == []
      ensures Texts(App(records)) == stream
    {
      assert stream + segment == stream;
    }
  }

  // ---- whole runs ----

  /** What a connection does with its writer. */
  datatype Op =
    | SendMessage(msg: Octets)
    | SendChangeCipherSpec
    | Flush(shutDown: bool)
    | Write(len: nat, addr: int, alignPrefix: nat, address: nat)

  /**
  A connection from its start: handshake messages, flushes and writes in any order, over a transport
  that takes what it likes. The caller has `data` to send and offers more of it with each write, from
  the first byte not reported as written; after a blocked write it offers at least as much again.
  Application records then carry a prefix of `data`, each byte once and in order, which holds all that
  was reported; and the transport has been given a prefix of the records.
  */
  method Run(script: nat -> int, seal: Sealer, overhead: nat, maxSendFragment: nat, partialWrite: bool, moving: bool,
             ops: seq<Op>, data: Octets)
    returns (w: TlsWriter, done: nat)
    requires Bounded(seal, overhead) && overhead <= MAX_SEAL_OVERHEAD && 0 < maxSendFragment <= MAX_PLAIN_LENGTH
    ensures w.Valid() && done <= |data| && w.stream == data[..done]
    ensures data[..done] <= Texts(App(w.records)) <= data
    ensures Genuine(w.records, seal, w.attempts) && w.bio.taken <= OnWire(w.records, seal)
  {
    hide TlsWriter.Valid, App, Texts, Ciphertext, Genuine, OnWire;
    w := new TlsWriter(script, seal, overhead, maxSendFragment, partialWrite, moving);
    done := 0;
    var offered := 0;
    for i := 0 to |ops|
      invariant w.seal == seal && w.Valid() && fresh(w) && fresh(w.bio) && fresh(w.buffer) && fresh(w.buffer.Memory())
      invariant done + offered <= |data| && w.stream == data[..done]
      invariant w.InStep(data[done..done + offered], w.wnum)
    {
      done, offered := Step(w, ops[i], data, done, offered);
    }
    SoFar(w, data, done, offered);
  }

  /** One operation of a run: `offered` is the length of a blocked write. */
  method Step(w: TlsWriter, op: Op, data: Octets, done: nat, offered: nat) returns (done': nat, offered': nat)
    requires w.Valid() && done + offered <= |data| && w.stream == data[..done]
    requires w.InStep(data[done..done + offered], w.wnum)
    modifies w, w.bio, w.buffer, w.buffer.Memory()
    ensures w.Valid() && done <= done' && done' + offered' <= |data| && w.stream == data[..done']
    ensures w.InStep(data[done'..done' + offered'], w.wnum)
    ensures w.buffer.buf in {null, old(w.buffer.buf)} || fresh(w.buffer.buf)
  {
    hide TlsWriter.Valid, FullRecords, CarriedSince, OneMore, Grown, OnWire, TlsWriter.Smooth, TlsWriter.Accessible,
         TlsWriter.ChunksFit, TlsWriter.FlightSized, Willing;
    done', offered' := done, offered;
    match op
    case SendMessage(msg) =>
      if w.pendingFlightOffset == 0 {
        var _ := w.AddMessage(msg);
      }
    case SendChangeCipherSpec =>
      if w.pendingFlightOffset == 0 {
        var _ := w.AddRecordToFlight(RT_CHANGE_CIPHER_SPEC, [1]);
      }
    case Flush(shutDown) =>
      var _ := w.FlushFlight(shutDown);
    case Write(len, addr, alignPrefix, address) =>
      var more := if len < offered then offered else len;
      var n := if more > |data| - done then |data| - done else more;
      OfferMore(data, done, offered, n, w.segment);
      if n >= w.wnum && w.ChunksFit(n - w.wnum, alignPrefix, address) {
        var r := w.WriteAppData(data[done..done + n], addr, alignPrefix, address, false);
        if r > 0 {
          done', offered' := done + r, 0;
          Onward(data, done, n, r);
        } else {
          offered' := n;
        }
      }
  }

  lemma OfferMore(data: Octets, done: nat, offered: nat, n: nat, segment: Octets)
    requires done + offered <= done + n <= |data| && segment <= data[done..done + offered]
    ensures segment <= data[done..done + n]
  {
  }

  lemma Onward(data: Octets, done: nat, n: nat, r: nat)
    requires r <= n && done + n <= |data|
    ensures data[..done] + data[done..done + n][..r] == data[..done + r]
  {
  }

  lemma SoFar(w: TlsWriter, data: Octets, done: nat, offered: nat)
    requires w.Valid() && done + offered <= |data| && w.stream == data[..done]
    requires w.InStep(data[done..done + offered], w.wnum)
    ensures data[..done] <= Texts(App(w.records)) <= data
    ensures Genuine(w.records, w.seal, w.attempts) && w.bio.taken <= OnWire(w.records, w.seal)
  {
    GenuineOnWire(w.records, w.seal, w.attempts);
    assert Texts(App(w.records)) == data[..done] + w.segment;
    assert w.segment == data[done..done + |w.segment|];
  }

  /** `after` is `before` and the bytes of `data` between two places; past its end there is nothing to add. */
  predicate Grown(before: Octets, after: Octets, data: Octets, from: nat, to: nat)
  {
    if from <= |data| then from <= to <= |data| && after == before + data[from..to]
    else to == from && after == before
  }

  lemma GrownNot(segment: Octets, data: Octets, from: nat)
    ensures Grown(segment, segment, data, from, from)
  {
    assert segment + [] == segment;
  }

  lemma GrownOn(first: Octets, second: Octets, third: Octets, data: Octets, from: nat, middle: nat, to: nat)
    requires Grown(first, second, data, from, middle) && Grown(second, third, data, middle, to)
    ensures Grown(first, third, data, from, to)
  {
    if from <= |data| {
      assert data[from..middle] + data[middle..to] == data[from..to];
      assert first + data[from..middle] + data[middle..to] == first + (data[from..middle] + data[middle..to]);
    }
  }

  lemma GrownBehind(front: Octets, before: Octets, after: Octets, data: Octets, from: nat, to: nat)
    requires Grown(before, after, data, from, to)
    ensures Grown(front + before, front + after, data, from, to)
  {
    if from <= |data| {
      assert front + before + data[from..to] == front + (before + data[from..to]);
    }
  }

  /** What was a prefix of the data grows into a longer one. */
  lemma GrownPrefix(was: Octets, counted: Octets, stream: Octets, segment: Octets, data: Octets, to: nat)
    requires counted <= data && Grown(was + counted, stream + segment, data, |counted|, to)
    ensures |counted| <= to <= |data| && stream + segment == was + data[..to]
    ensures segment == [] ==> stream == was + data[..to]
    ensures stream == was ==> segment == data[..to]
  {
    var from := |counted|;
    assert counted + data[from..to] == data[..to];
    assert was + counted + data[from..to] == was + (counted + data[from..to]);
    assert segment == [] ==> stream + segment == stream;
    assert stream == was ==> (stream + segment)[|was|..] == segment && (was + data[..to])[|was|..] == data[..to];
  }

  /** Bytes added from a place that the count is past already. */
  lemma GrownTwice(was: Octets, counted: Octets, after: Octets, data: Octets, from: nat, to: nat)
    requires counted <= data && from <= |counted| && Grown(was + counted, after, data, from, to)
    ensures from <= to <= |data| && after == was + data[..|counted|] + data[from..to]
  {
    assert counted == data[..|counted|];
  }

  /** The records of application data. */
  function App(records: seq<Record>): seq<Record>
  {
    if records == [] then []
    else
      var n := |records| - 1;
      App(records[..n]) + if records[n].kind == RT_APPLICATION_DATA then [records[n]] else []
  }

  /** The records of application data carry exactly `data`, whatever handshake records lie in between. */
  predicate Accounted(records: seq<Record>, data: Octets, max: nat)
  {
    Carries(App(records), RT_APPLICATION_DATA, data, max)
  }

  lemma AccountOther(records: seq<Record>, data: Octets, max: nat, r: Record)
    requires Accounted(records, data, max) && r.kind != RT_APPLICATION_DATA
    ensures Accounted(records + [r], data, max)
  {
    assert (records + [r])[..|records|] == records;
    assert App(records + [r]) == App(records);
  }

  lemma AccountMore(records: seq<Record>, stream: Octets, segment: Octets, max: nat, r: Record)
    requires Accounted(records, stream + segment, max) && r.kind == RT_APPLICATION_DATA && |r.text| <= max
    ensures Accounted(records + [r], stream + (segment + r.text), max)
  {
    assert (records + [r])[..|records|] == records;
    var before, after := App(records), App(records + [r]);
    assert after == before + [r] && after[..|before|] == before;
    assert stream + segment + r.text == stream + (segment + r.text);
  }

  /** The records carry `data` in order, in texts of at most `max` bytes. */
  predicate Carries(records: seq<Record>, kind: Byte, data: Octets, max: nat)
  {
    && (forall i :: 0 <= i < |records| ==> records[i].kind == kind && |records[i].text| <= max)
    && Texts(records) == data
  }

  function Texts(records: seq<Record>): Octets
  {
    if records == [] then [] else Texts(records[..|records| - 1]) + records[|records| - 1].text
  }

  /** One record has been added, with this text. */
  predicate OneMore(before: seq<Record>, after: seq<Record>, kind: Byte, text: Octets)
  {
    |after| == |before| + 1 && before <= after && after[|before|].kind == kind && after[|before|].text == text
  }

  /** All records added since `before` are of the fragment size. */
  predicate AllFull(before: seq<Record>, now: seq<Record>, max: nat)
  {
    before <= now && forall i :: |before| <= i < |now| ==> |now[i].text| == max
  }

  /** All but the last are. */
  predicate FullRecords(before: seq<Record>, now: seq<Record>, max: nat)
  {
    before <= now && forall i :: |before| <= i < |now| - 1 ==> |now[i].text| == max
  }

  /** The records added since `before` carry `data`. */
  predicate CarriedSince(before: seq<Record>, now: seq<Record>, kind: Byte, data: Octets, max: nat)
  {
    before <= now && Carries(now[|before|..], kind, data, max)
  }

  lemma CarriesMore(start: seq<Record>, before: seq<Record>, after: seq<Record>, kind: Byte, data: Octets,
                    text: Octets, max: nat)
    requires CarriedSince(start, before, kind, data, max) && OneMore(before, after, kind, text) && |text| <= max
    ensures CarriedSince(start, after, kind, data + text, max)
  {
    var older, newer := before[|start|..], after[|start|..];
    assert newer == older + [after[|before|]];
    assert newer[..|newer| - 1] == older;
  }

  lemma MoveChunk(done: Octets, rest: Octets, n: nat)
    requires n <= |rest|
    ensures (done + rest[..n]) + rest[n..] == done + rest
  {
    assert rest[..n] + rest[n..] == rest;
  }
}
