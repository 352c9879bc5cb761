/**
The DTLS record layer: opening records behind the replay window and sealing them under explicit
sequence numbers, across epoch changes (sections 4.1.2.6 and 4.1 of RFC 6347).
*/
module DtlsRecord {
  import opened Bytes
  import opened AeadContext
  import BigEndian
  import Bits
  import DtlsReplay
  import PbWire

  const RT_HEADER_LENGTH: nat := 13
  const MAX_PLAIN_LENGTH: nat := 16384
  const MAX_ENCRYPTED_LENGTH: nat := 16384 + 256 + 64
  const RT_ALERT: Byte := 21
  const DTLS1_VERSION_MAJOR: nat := 0xfe
  const EPOCHS: nat := U16
  // 2^48, the number of records in an epoch
  const SEQUENCES: nat := 0x1_0000_0000_0000

  // ---- the wire form ----

  /** A record as it travels: type, version, epoch and sequence number, length, ciphertext. */
  function RecordBytes(kind: Byte, version: nat, number: Octets, body: Octets): Octets
  {
    [kind] + TwoBytes(version) + number + TwoBytes(|body|) + body
  }

  /** The 64-bit record number of sequence `n` in `epoch`. */
  function Number(epoch: nat, n: nat): (s: Octets)
    ensures |s| == 8
  {
    TwoBytes(epoch) + BigEndian.Encode(n, 6)
  }

  function U16Of(high: nat, low: nat): nat { 256 * high + low }

  datatype Parsed = Parsed(kind: Byte, version: nat, number: Octets, body: Octets, rest: Octets)

  /** The record header and body at the front of a packet. */
  function ParseRecord(packet: Octets): (p: Option<Parsed>)
    ensures p.Some? ==> |p.value.number| == 8 && |p.value.rest| <= |packet|
  {
    if |packet| < RT_HEADER_LENGTH then None
    else
      var length := U16Of(packet[11], packet[12]);
      if |packet| < RT_HEADER_LENGTH + length || length > MAX_ENCRYPTED_LENGTH then None
      else
        var end := RT_HEADER_LENGTH + length;
        Some(Parsed(packet[0], U16Of(packet[1], packet[2]), packet[3..11],
                    packet[RT_HEADER_LENGTH..end], packet[end..]))
  }

  /** What was put together is taken apart again, with whatever follows it in the packet left over. */
  lemma ParseUndoesRecord(kind: Byte, version: nat, number: Octets, body: Octets, rest: Octets)
    requires version < U16 && |number| == 8 && |body| <= MAX_ENCRYPTED_LENGTH
    ensures ParseRecord(RecordBytes(kind, version, number, body) + rest) ==
            Some(Parsed(kind, version, number, body, rest))
  {
    hide TwoBytes, U16Of;
    var head := HeadBytes(kind, version, number, |body|);
    HeadFields(kind, version, number, |body|);
    Behind(head, body, rest);
    assert RecordBytes(kind, version, number, body) + rest == head + body + rest;
  }

  function HeadBytes(kind: Byte, version: nat, number: Octets, length: nat): Octets
  {
    [kind] + TwoBytes(version) + number + TwoBytes(length)
  }

  lemma HeadFields(kind: Byte, version: nat, number: Octets, length: nat)
    requires version < U16 && length < U16 && |number| == 8
    ensures var h := HeadBytes(kind, version, number, length);
            && |h| == RT_HEADER_LENGTH && h[0] == kind && U16Of(h[1], h[2]) == version
            && h[3..11] == number && U16Of(h[11], h[12]) == length
  {
    hide U16Of;
    var v, l, h := TwoBytes(version), TwoBytes(length), HeadBytes(kind, version, number, length);
    TwoDigits(version);
    TwoDigits(length);
    assert h[1] == v[0] && h[2] == v[1] && h[11] == l[0] && h[12] == l[1];
  }

  /** The parts of a packet whose record header is `head`. */
  lemma Behind(head: Octets, body: Octets, rest: Octets)
    requires |head| == RT_HEADER_LENGTH
    ensures var p, end := head + body + rest, RT_HEADER_LENGTH + |body|;
            && (forall i :: 0 <= i < RT_HEADER_LENGTH ==> p[i] == head[i]) && p[3..11] == head[3..11]
            && p[RT_HEADER_LENGTH..end] == body && p[end..] == rest
  {
  }

  function EpochOf(number: Octets): nat
    requires |number| == 8
  {
    U16Of(number[0], number[1])
  }

  lemma SixBytes()
    ensures Bits.Pow2(8 * 6) == SEQUENCES
  {
    PbWire.WordSizes();
    PbWire.TimesWord(32);
  }

  // ---- sealed records ----

  /** One record as it is sealed: the keys, the header fields, the random part of the nonce and the text. */
  datatype SealedRecord = SealedRecord(
    ctx: Context, kind: Byte, version: nat, epoch: nat, n: nat, random: Octets, text: Octets)

  /** The record's fields have the widths they have in the program, and its tag is defined. */
  predicate Proper(s: SealedRecord)
  {
    && WellFormed(s.ctx) && |s.random| == s.ctx.variableNonceLen
    && s.version < U16 && s.epoch < EPOCHS && s.n < SEQUENCES
    && SuffixLen(s.ctx, |s.text|, 0).Some?
    && CiphertextLen(s.ctx, |s.text|) < U16
  }

  type Sealed = s: SealedRecord | Proper(s)
    witness SealedRecord(NullCipher(true), 0, 0, 0, 0, [], [])

  function CiphertextLen(c: Context, n: nat): nat
    requires SuffixLen(c, n, 0).Some?
  {
    ExplicitNonceLen(c) + n + SuffixLen(c, n, 0).value
  }

  function Ciphertext(s: Sealed): Octets
  {
    SealBytes(s.ctx, s.kind, s.version, Number(s.epoch, s.n), s.random, s.text, [])
  }

  /** The bytes of a sealed record. */
  function Wire(s: Sealed): Octets
  {
    RecordBytes(s.kind, s.version, Number(s.epoch, s.n), Ciphertext(s))
  }

  /** Several records in one packet. */
  function Packet(rs: seq<Sealed>): Octets
  {
    if rs == [] then [] else Wire(rs[0]) + Packet(rs[1..])
  }

  lemma {:induction false} PacketAppend(rs: seq<Sealed>, more: seq<Sealed>)
    ensures Packet(rs + more) == Packet(rs) + Packet(more)
    decreases |rs|
  {
    hide Wire;
    if rs == [] {
      assert rs + more == more;
    } else {
      PacketAppend(rs[1..], more);
      assert (rs + more)[1..] == rs[1..] + more;
      Assoc(Wire(rs[0]), Packet(rs[1..]), Packet(more));
    }
  }

  lemma Assoc(a: Octets, b: Octets, c: Octets)
    ensures (a + b) + c == a + (b + c)
  {
  }

  lemma PacketOne(s: Sealed)
    ensures Packet([s]) == Wire(s)
  {
    assert Packet([s]) == Wire(s) + Packet([s][1..]);
  }

  lemma CiphertextSize(s: Sealed)
    requires s.ctx.aead.Some? ==> Correct(s.ctx.aead.value)
    ensures |Ciphertext(s)| == CiphertextLen(s.ctx, |s.text|) <= |s.text| + MaxOverhead(s.ctx)
  {
    SealedLength(s.ctx, s.kind, s.version, Number(s.epoch, s.n), s.random, s.text);
  }

  /** A sealed record is parsed off the front of a packet, unless it is longer than any receiver takes. */
  lemma WireParses(s: Sealed, rest: Octets)
    requires s.ctx.aead.Some? ==> Correct(s.ctx.aead.value)
    ensures ParseRecord(Wire(s) + rest) ==
            if CiphertextLen(s.ctx, |s.text|) > MAX_ENCRYPTED_LENGTH then None
            else Some(Parsed(s.kind, s.version, Number(s.epoch, s.n), Ciphertext(s), rest))
  {
    CiphertextSize(s);
    var number, body := Number(s.epoch, s.n), Ciphertext(s);
    if |body| <= MAX_ENCRYPTED_LENGTH {
      ParseUndoesRecord(s.kind, s.version, number, body, rest);
    } else {
      WireLength(s.kind, s.version, number, body, Wire(s) + rest);
    }
  }

  /** The length field tells the length of the ciphertext. */
  lemma WireLength(kind: Byte, version: nat, number: Octets, body: Octets, p: Octets)
    requires |number| == 8 && |body| < U16 && |p| >= RT_HEADER_LENGTH
    requires p[..RT_HEADER_LENGTH] == RecordBytes(kind, version, number, body)[..RT_HEADER_LENGTH]
    ensures U16Of(p[11], p[12]) == |body|
  {
    var w := RecordBytes(kind, version, number, body);
    assert p[11] == p[..RT_HEADER_LENGTH][11] == w[11] == (|body| / 256) % 256;
    assert p[12] == p[..RT_HEADER_LENGTH][12] == w[12] == |body| % 256;
  }

  /** A record that is cut off does not parse. */
  lemma CutOffRecord(s: Sealed, cut: Octets)
    requires s.ctx.aead.Some? ==> Correct(s.ctx.aead.value)
    requires cut < Wire(s)
    ensures ParseRecord(cut) == None
  {
    CiphertextSize(s);
    if |cut| >= RT_HEADER_LENGTH {
      assert cut[..RT_HEADER_LENGTH] == Wire(s)[..RT_HEADER_LENGTH];
      WireLength(s.kind, s.version, Number(s.epoch, s.n), Ciphertext(s), cut);
    }
  }

  // ---- opening ----

  datatype Opened =
    | Partial | CloseNotify | Discard | Error
    | Success(kind: Byte, out: Octets)
    | Alert(out: Octets)

  function VersionOk(c: Context, version: nat): bool
  {
    if c.aead.None? then version / 256 == DTLS1_VERSION_MAJOR else version == RecordVersion(c)
  }

  class RecordReader {
    var rEpoch: nat
    var readCtx: Context
    const bitmap: DtlsReplay.Bitmap
    var closed: bool
    // every record number ever accepted, in any epoch
    ghost var accepted: set<nat>

    ghost predicate Valid()
      reads this, bitmap
    {
      && bitmap.Valid() && WellFormed(readCtx) && rEpoch < EPOCHS
      && (forall s :: s in accepted ==> s / SEQUENCES <= rEpoch)
      && (forall s :: s in bitmap.seen <==> s in accepted && s / SEQUENCES == rEpoch)
    }

    constructor (isDtls: bool)
      ensures Valid() && accepted == {} && rEpoch == 0 && readCtx == NullCipher(isDtls) && !closed && fresh(bitmap)
    {
      rEpoch, readCtx, closed, accepted := 0, NullCipher(isDtls), false, {};
      bitmap := new DtlsReplay.Bitmap();
    }

    /** The part of `dtls1_set_read_state` that starts a new epoch. */
    method NextEpoch(ctx: Context)
      requires Valid() && WellFormed(ctx) && rEpoch + 1 < EPOCHS
      modifies this`rEpoch, this`readCtx, bitmap
      ensures Valid() && rEpoch == old(rEpoch) + 1 && readCtx == ctx
      ensures bitmap.seen == {}
    {
      rEpoch := rEpoch + 1;
      bitmap.Reset();
      readCtx := ctx;
    }

    /** Whether a packet's first record is taken: right version and epoch, not a replay, and authentic. */
    ghost predicate Acceptable(packet: Octets)
      requires Valid()
      reads this, bitmap
    {
      var p := ParseRecord(packet);
      && p.Some? && VersionOk(readCtx, p.value.version)
      && EpochOf(p.value.number) == rEpoch
      && !DtlsReplay.Stale(bitmap.seen, BigEndian.Value(p.value.number))
      && OpenBytes(readCtx, p.value.kind, p.value.version, p.value.number, p.value.body).Some?
    }

    /**
    `dtls_open_record`. A record is accepted exactly when it is `Acceptable` and not too long, and no
    record number is ever accepted twice, in this epoch or any earlier one.
    */
    method OpenRecord(packet: Octets) returns (r: Opened, consumed: nat)
      requires Valid()
      modifies this`accepted, bitmap
      ensures Valid()
      ensures closed ==> r == CloseNotify
      ensures !closed && packet == [] ==> r == Partial
      ensures !closed && packet != [] && !old(Acceptable(packet)) ==> r == Discard
      ensures !closed && packet != [] && old(Acceptable(packet)) ==>
        var p := ParseRecord(packet).value;
        var out := OpenBytes(readCtx, p.kind, p.version, p.number, p.body).value;
        r == if |out| > MAX_PLAIN_LENGTH then Error else if p.kind == RT_ALERT then Alert(out) else Success(p.kind, out)
      ensures if r.Success? || r.Alert?
              then var s := BigEndian.Value(ParseRecord(packet).value.number);
                   s !in old(accepted) && accepted == old(accepted) + {s}
              else accepted == old(accepted)
      ensures consumed <= |packet|
      ensures !closed && packet != [] ==>
        consumed == if ParseRecord(packet).Some? && VersionOk(readCtx, ParseRecord(packet).value.version)
                    then |packet| - |ParseRecord(packet).value.rest| else |packet|
    {
      if closed {
        return CloseNotify, 0;
      }
      if |packet| == 0 {
        return Partial, 0;
      }
      var header := ParseRecord(packet);
      if header.None? || !VersionOk(readCtx, header.value.version) {
        // The header is incomplete or malformed: drop the entire packet.
        return Discard, |packet|;
      }
      var p := header.value;
      consumed := |packet| - |p.rest|;
      var sequence := BigEndian.ToU64(p.number);
      var replay := bitmap.ShouldDiscard(sequence);
      if EpochOf(p.number) != rEpoch || replay {
        return Discard, consumed;
      }
      var out := Open(readCtx, p.kind, p.version, p.number, p.body);
      if out.None? {
        return Discard, consumed;
      }
      if |out.value| > MAX_PLAIN_LENGTH {
        return Error, consumed;
      }
      bitmap.Record(sequence);
      EpochFromNumber(p.number);
      accepted := accepted + {sequence};
      r := if p.kind == RT_ALERT then Alert(out.value) else Success(p.kind, out.value);
    }
  }

  /** The epoch is the top of the 64-bit record number. */
  lemma EpochFromNumber(number: Octets)
    requires |number| == 8
    ensures BigEndian.Value(number) / SEQUENCES == EpochOf(number)
  {
    var a, b := number[..2], number[2..];
    assert number == a + b;
    BigEndian.ValueConcat(a, b);
    BigEndian.ValueBound(b);
    SixBytes();
    assert a[..1] == [number[0]] && BigEndian.Value(a[..1]) == number[0] by {
      assert a[..1][..0] == [];
    }
    assert BigEndian.Value(a) == EpochOf(number);
    Shift48(BigEndian.Value(a));
    Bits.ModUnique(SEQUENCES, BigEndian.Value(a), BigEndian.Value(b));
  }

  lemma Shift48(x: nat)
    ensures Bits.Scale(x, 48) == SEQUENCES * x
  {
    assert Bits.Scale(x, 8) == 256 * x by { BigEndian.Scale8(x, 0); }
    BigEndian.Scale8(x, 8);
    BigEndian.Scale8(x, 16);
    BigEndian.Scale8(x, 24);
    BigEndian.Scale8(x, 32);
    BigEndian.Scale8(x, 40);
  }

  // ---- sealing ----

  datatype UseEpoch = CurrentEpoch | PreviousEpoch

  /** `++b` on a `uint8_t`. */
  function Increment(b: Byte): Byte { if b == 255 then 0 else b + 1 }

  /** `ssl_record_sequence_update` on `seq[from..]`: add one, with carry; false if it wraps to zero. */
  method SequenceUpdate(digits: array<Byte>, from: nat) returns (ok: bool)
    requires from < digits.Length
    modifies digits
    ensures digits[..from] == old(digits[..from])
    ensures var n := BigEndian.Value(old(digits[from..]));
            if ok then BigEndian.Value(digits[from..]) == n + 1 else digits[from..] == Zeros(digits.Length - from)
    ensures !ok ==> BigEndian.Value(old(digits[from..])) + 1 == Bits.Pow2(8 * (digits.Length - from))
  {
    ghost var was := digits[from..];
    var i := digits.Length - 1;
    assert was[..|was|] == was;
    ok := false;
    while i >= from && !ok
      invariant from - 1 <= i < digits.Length
      invariant digits[..from] == old(digits[..from])
      invariant |digits[from..]| == |was|
      invariant !ok ==> digits[from..] == was[..i + 1 - from] + Zeros(digits.Length - 1 - i)
      invariant !ok ==> forall k :: i + 1 - from <= k < |was| ==> was[k] == 255
      invariant ok ==> BigEndian.Value(digits[from..]) == BigEndian.Value(was) + 1
      decreases i + 1 - from, !ok
    {
      ghost var k := i - from;
      assert digits[from..][k] == was[k];
      digits[i] := Increment(digits[i]);
      if digits[i] != 0 {
        assert digits[from..] == was[..k] + [(was[k] + 1) as Byte] + Zeros(|was| - 1 - k);
        CarryStops(was, k);
        ok := true;
      } else {
        assert digits[from..] == was[..k] + Zeros(|was| - k);
        i := i - 1;
      }
    }
    if !ok {
      AllOnes(was);
    }
  }

  /** Adding one: a byte below 255 goes up and the 255s behind it become zero. */
  lemma {:induction false} CarryStops(s: Octets, k: nat)
    requires k < |s| && s[k] < 255 && forall j :: k < j < |s| ==> s[j] == 255
    ensures BigEndian.Value(s[..k] + [(s[k] + 1) as Byte] + Zeros(|s| - 1 - k)) == BigEndian.Value(s) + 1
    decreases |s|
  {
    var n := |s| - 1;
    var t := s[..k] + [(s[k] + 1) as Byte] + Zeros(n - k);
    if k == n {
      assert t[..n] == s[..n];
    } else {
      CarryStops(s[..n], k);
      assert s[..n][..k] == s[..k];
      assert t[..n] == s[..k] + [(s[k] + 1) as Byte] + Zeros(n - 1 - k);
      assert t[n] == 0;
    }
  }

  lemma {:induction false} AllOnes(s: Octets)
    requires forall j :: 0 <= j < |s| ==> s[j] == 255
    ensures BigEndian.Value(s) + 1 == Bits.Pow2(8 * |s|)
  {
    if s != [] {
      AllOnes(s[..|s| - 1]);
      BigEndian.Times256(|s| - 1);
    }
  }

  // ---- which numbers have been used ----

  /** Of the numbers of epoch `e` those below `next` have been used, or all of them once the counter has wrapped. */
  ghost predicate Counts(sealed: set<(nat, nat)>, e: nat, next: nat, wrapped: bool)
  {
    forall n: nat :: n < SEQUENCES ==> ((e, n) in sealed <==> wrapped || n < next)
  }

  predicate InEpochs(sealed: set<(nat, nat)>, epoch: nat)
  {
    forall p :: p in sealed ==> p.0 <= epoch && p.1 < SEQUENCES
  }

  /** The numbers used so far, `wraps` being the epochs whose counter has wrapped. */
  ghost predicate Ledger(sealed: set<(nat, nat)>, wraps: set<nat>, epoch: nat, next: nat, last: nat)
  {
    && InEpochs(sealed, epoch) && (forall e :: e in wraps ==> e <= epoch)
    && Counts(sealed, epoch, next, epoch in wraps)
    && (epoch > 0 ==> Counts(sealed, epoch - 1, last, epoch - 1 in wraps))
  }

  /** The counter of epoch `e` after `next` has been used. */
  function Succ(next: nat): nat { if next + 1 == SEQUENCES then 0 else next + 1 }

  lemma CountsMore(sealed: set<(nat, nat)>, e: nat, next: nat, wrapped: bool)
    requires Counts(sealed, e, next, wrapped) && next < SEQUENCES
    ensures (e, next) in sealed <==> wrapped
    ensures Counts(sealed + {(e, next)}, e, Succ(next), wrapped || next + 1 == SEQUENCES)
  {
    forall n: nat | n < SEQUENCES
      ensures (e, n) in sealed + {(e, next)} <==> wrapped || next + 1 == SEQUENCES || n < Succ(next)
    {
      assert (e, n) in sealed <==> wrapped || n < next;
    }
  }

  lemma CountsOther(sealed: set<(nat, nat)>, p: (nat, nat), e: nat, next: nat, wrapped: bool)
    requires Counts(sealed, e, next, wrapped) && p.0 != e
    ensures Counts(sealed + {p}, e, next, wrapped)
  {
    forall n: nat | n < SEQUENCES ensures (e, n) in sealed + {p} <==> wrapped || n < next {
      assert (e, n) in sealed <==> wrapped || n < next;
    }
  }

  /** Using up the next number of the current epoch. */
  lemma LedgerCurrent(sealed: set<(nat, nat)>, wraps: set<nat>, epoch: nat, next: nat, last: nat)
    requires Ledger(sealed, wraps, epoch, next, last) && next < SEQUENCES
    ensures (epoch, next) in sealed <==> epoch in wraps
    ensures var wraps' := if next + 1 == SEQUENCES then wraps + {epoch} else wraps;
            Ledger(sealed + {(epoch, next)}, wraps', epoch, Succ(next), last)
  {
    CountsMore(sealed, epoch, next, epoch in wraps);
    if epoch > 0 { CountsOther(sealed, (epoch, next), epoch - 1, last, epoch - 1 in wraps); }
  }

  /** Using up the next number of the previous epoch. */
  lemma LedgerPrevious(sealed: set<(nat, nat)>, wraps: set<nat>, epoch: nat, next: nat, last: nat)
    requires Ledger(sealed, wraps, epoch, next, last) && epoch > 0 && last < SEQUENCES
    ensures (epoch - 1, last) in sealed <==> epoch - 1 in wraps
    ensures var wraps' := if last + 1 == SEQUENCES then wraps + {epoch - 1} else wraps;
            Ledger(sealed + {(epoch - 1, last)}, wraps', epoch, next, Succ(last))
  {
    CountsMore(sealed, epoch - 1, last, epoch - 1 in wraps);
    CountsOther(sealed, (epoch - 1, last), epoch, next, epoch in wraps);
  }

  lemma LedgerEpoch(sealed: set<(nat, nat)>, wraps: set<nat>, epoch: nat, next: nat, last: nat)
    requires Ledger(sealed, wraps, epoch, next, last)
    ensures Ledger(sealed, wraps, epoch + 1, 0, next)
  {
    assert Counts(sealed, epoch + 1, 0, false);
  }

  class RecordWriter {
    var wEpoch: nat
    var ctx: Context
    var lastCtx: Context
    const writeSequence: array<Byte>
    const lastWriteSequence: array<Byte>
    // (epoch, sequence number) of everything sealed, and the epochs whose sequence number has wrapped
    ghost var sealed: set<(nat, nat)>
    ghost var wraps: set<nat>

    ghost predicate Valid()
      reads this, writeSequence, lastWriteSequence
    {
      && writeSequence.Length == 8 && lastWriteSequence.Length == 8 && writeSequence != lastWriteSequence
      && wEpoch < EPOCHS
      && WellFormed(ctx) && WellFormed(lastCtx)
      && (ctx.aead.Some? ==> Correct(ctx.aead.value)) && (lastCtx.aead.Some? ==> Correct(lastCtx.aead.value))
      && Ledger(sealed, wraps, wEpoch, BigEndian.Value(writeSequence[2..]), BigEndian.Value(lastWriteSequence[2..]))
    }

    constructor (isDtls: bool)
      ensures Valid() && sealed == {} && wraps == {} && wEpoch == 0
      ensures ctx == lastCtx == NullCipher(isDtls)
      ensures Next(CurrentEpoch) == 0 && Next(PreviousEpoch) == 0
      ensures fresh(writeSequence) && fresh(lastWriteSequence)
    {
      wEpoch, ctx, lastCtx := 0, NullCipher(isDtls), NullCipher(isDtls);
      writeSequence := new Byte[8](_ => 0);
      lastWriteSequence := new Byte[8](_ => 0);
      sealed, wraps := {}, {};
      new;
      ZeroValue(6);
      assert writeSequence[2..] == Zeros(6) && lastWriteSequence[2..] == Zeros(6);
    }

    /** `dtls1_set_write_state`: the current epoch becomes the previous one. */
    method NextEpoch(aead: Context)
      requires Valid() && wEpoch + 1 < EPOCHS && WellFormed(aead) && (aead.aead.Some? ==> Correct(aead.aead.value))
      modifies this`wEpoch, this`ctx, this`lastCtx, writeSequence, lastWriteSequence
      ensures Valid() && wEpoch == old(wEpoch) + 1 && ctx == aead && lastCtx == old(ctx)
      ensures Next(CurrentEpoch) == 0 && Next(PreviousEpoch) == old(Next(CurrentEpoch))
    {
      LedgerEpoch(sealed, wraps, wEpoch, Next(CurrentEpoch), Next(PreviousEpoch));
      wEpoch := wEpoch + 1;
      forall i | 0 <= i < 8 { lastWriteSequence[i] := writeSequence[i]; }
      assert lastWriteSequence[2..] == old(writeSequence[2..]);
      ghost var last := lastWriteSequence[2..];
      forall i | 0 <= i < 8 { writeSequence[i] := 0; }
      assert lastWriteSequence[2..] == last;
      assert writeSequence[2..] == Zeros(6);
      ZeroValue(6);
      lastCtx := ctx;
      ctx := aead;
    }

    function EpochFor(use: UseEpoch): nat
      requires use.PreviousEpoch? ==> wEpoch >= 1
      reads `wEpoch
    {
      if use.PreviousEpoch? then wEpoch - 1 else wEpoch
    }

    function CtxFor(use: UseEpoch): Context
      reads `ctx, `lastCtx
    {
      if use.PreviousEpoch? then lastCtx else ctx
    }

    function SequenceFor(use: UseEpoch): array<Byte>
    {
      if use.PreviousEpoch? then lastWriteSequence else writeSequence
    }

    /** `dtls_max_seal_overhead`. */
    function MaxSealOverhead(use: UseEpoch): nat
      reads `ctx, `lastCtx
    {
      RT_HEADER_LENGTH + MaxOverhead(CtxFor(use))
    }

    /** `dtls_seal_prefix_len`. */
    function SealPrefixLen(use: UseEpoch): nat
      reads `ctx, `lastCtx
    {
      RT_HEADER_LENGTH + ExplicitNonceLen(CtxFor(use))
    }

    /** The sequence number the next record of that epoch gets. */
    ghost function Next(use: UseEpoch): (n: nat)
      requires writeSequence.Length == 8 && lastWriteSequence.Length == 8
      reads this, writeSequence, lastWriteSequence
    {
      BigEndian.Value(SequenceFor(use)[2..])
    }

    /**
    Use up a sequence number. It fails only at 2^48 - 1, and then the counter is back at zero; the
    number was used before exactly if that has already happened in its epoch.
    */
    method Consume(use: UseEpoch) returns (ok: bool)
      requires Valid() && (use.PreviousEpoch? ==> wEpoch >= 1)
      modifies this`sealed, this`wraps, SequenceFor(use)
      ensures Valid() && sealed == old(sealed) + {(EpochFor(use), old(Next(use)))}
      ensures ok == (old(Next(use)) + 1 != SEQUENCES) && Next(use) == Succ(old(Next(use)))
      ensures wraps == if ok then old(wraps) else old(wraps) + {EpochFor(use)}
      ensures (EpochFor(use), old(Next(use))) in old(sealed) <==> EpochFor(use) in old(wraps)
    {
      hide BigEndian.Value, Ledger, WellFormed, Correct;
      ghost var n, other := Next(use), if use.PreviousEpoch? then writeSequence[2..] else lastWriteSequence[2..];
      SequenceBound(SequenceFor(use)[2..]);
      if use.PreviousEpoch? {
        LedgerPrevious(sealed, wraps, wEpoch, Next(CurrentEpoch), Next(PreviousEpoch));
      } else {
        LedgerCurrent(sealed, wraps, wEpoch, Next(CurrentEpoch), Next(PreviousEpoch));
      }
      ok := Increase(use);
      assert other == if use.PreviousEpoch? then writeSequence[2..] else lastWriteSequence[2..];
      sealed := sealed + {(EpochFor(use), n)};
      wraps := if ok then wraps else wraps + {EpochFor(use)};
    }

    /** `ssl_record_sequence_update` on the counter of an epoch. */
    method Increase(use: UseEpoch) returns (ok: bool)
      requires writeSequence.Length == 8 && lastWriteSequence.Length == 8
      modifies SequenceFor(use)
      ensures ok == (old(Next(use)) + 1 != SEQUENCES) && Next(use) == Succ(old(Next(use)))
    {
      SixBytes();
      ZeroValue(6);
      ok := SequenceUpdate(SequenceFor(use), 2);
      SequenceBound(SequenceFor(use)[2..]);
    }

    /**
    `dtls_seal_record`. What it returns is one record of the epoch asked for, under the next sequence
    number; nothing sealed before it has that number, unless the epoch's counter has wrapped.
    */
    method SealRecord(kind: Byte, text: Octets, use: UseEpoch, random: Octets, maxOut: nat)
      returns (ok: bool, out: Octets)
      requires Valid() && (use.PreviousEpoch? ==> wEpoch >= 1) && |random| == CtxFor(use).variableNonceLen
      modifies this`sealed, this`wraps, SequenceFor(use)
      ensures Valid()
      ensures ok <==> old(CanSeal(|text|, use, maxOut))
      ensures ok ==>
        && Proper(old(RecordFor(kind, text, use, random))) && out == Wire(old(RecordFor(kind, text, use, random)))
        && |out| <= maxOut && |out| <= |text| + MaxSealOverhead(use)
      // a number is used up whenever the record fits, even if it is then refused
      ensures if !old(Fits(|text|, use, maxOut))
              then sealed == old(sealed) && wraps == old(wraps) && Next(use) == old(Next(use))
              else
                && sealed == old(sealed) + {(EpochFor(use), old(Next(use)))} && Next(use) == Succ(old(Next(use)))
                && wraps == old(wraps) + if old(Next(use)) + 1 == SEQUENCES then {EpochFor(use)} else {}
      ensures ok ==> ((EpochFor(use), old(Next(use))) in old(sealed) <==> EpochFor(use) in old(wraps))
    {
      hide SealBytes, Number, BigEndian.Value, WellFormed, Correct, SuffixLen, CiphertextLen, RecordVersion,
           TwoBytes, Ledger;
      ok, out := false, [];
      if maxOut < RT_HEADER_LENGTH {
        // "buffer too small"
        return;
      }
      ghost var made := RecordFor(kind, text, use, random);
      var version, number := RecordVersion(ctx), NumberFor(use);
      var ciphertext := Encrypt(kind, version, number, text, use, random, maxOut - RT_HEADER_LENGTH);
      if ciphertext.None? {
        return;
      }
      ok := Consume(use);
      if ok {
        ok := |ciphertext.value| < U16;
        out := RecordBytes(kind, version, number, ciphertext.value);
      }
    }

    /** The call of the AEAD in `dtls_seal_record`. */
    method Encrypt(kind: Byte, version: nat, number: Octets, text: Octets, use: UseEpoch, random: Octets, maxOut: nat)
      returns (ciphertext: Option<Octets>)
      requires Valid() && (use.PreviousEpoch? ==> wEpoch >= 1) && |random| == CtxFor(use).variableNonceLen
      requires version == RecordVersion(ctx) && number == NumberFor(use)
      ensures number == Number(EpochFor(use), Next(use)) && Next(use) < SEQUENCES && version < U16
      ensures ciphertext.Some? <==> Fits(|text|, use, RT_HEADER_LENGTH + maxOut)
      ensures ciphertext.Some? ==>
        && |ciphertext.value| == CiphertextLen(CtxFor(use), |text|) <= |text| + MaxOverhead(CtxFor(use))
        && ciphertext.value == SealBytes(CtxFor(use), kind, version, number, random, text, [])
    {
      SequenceBytes(SequenceFor(use)[2..]);
      ciphertext := Seal(CtxFor(use), kind, version, number, random, text, maxOut);
      if ciphertext.Some? {
        SealedLength(CtxFor(use), kind, version, number, random, text);
      }
    }

    /** Whether `n` bytes have a tag and fit into `maxOut` once sealed. */
    predicate Fits(n: nat, use: UseEpoch, maxOut: nat)
      reads this
    {
      SuffixLen(CtxFor(use), n, 0).Some? && RT_HEADER_LENGTH + CiphertextLen(CtxFor(use), n) <= maxOut
    }

    /** Whether `n` bytes can be sealed into `maxOut`: they fit, and there is a sequence number left. */
    ghost predicate CanSeal(n: nat, use: UseEpoch, maxOut: nat)
      requires writeSequence.Length == 8 && lastWriteSequence.Length == 8
      reads this, writeSequence, lastWriteSequence
    {
      Fits(n, use, maxOut) && CiphertextLen(CtxFor(use), n) < U16 && Next(use) + 1 != SEQUENCES
    }

    /** The record that sealing `text` makes: the version is the current epoch's. */
    ghost function RecordFor(kind: Byte, text: Octets, use: UseEpoch, random: Octets): SealedRecord
      requires writeSequence.Length == 8 && lastWriteSequence.Length == 8 && (use.PreviousEpoch? ==> wEpoch >= 1)
      reads this, writeSequence, lastWriteSequence
    {
      SealedRecord(CtxFor(use), kind, RecordVersion(ctx), EpochFor(use), Next(use), random, text)
    }

    /** The record was made under the keys of one of the two live epochs. */
    ghost predicate Made(s: SealedRecord)
      reads `wEpoch, `ctx, `lastCtx
    {
      && s.version == RecordVersion(ctx)
      && ((s.epoch == wEpoch && s.ctx == ctx) || (s.epoch + 1 == wEpoch && s.ctx == lastCtx))
    }

    /** The record number the next record of that epoch gets. */
    function NumberFor(use: UseEpoch): (s: Octets)
      requires writeSequence.Length == 8 && lastWriteSequence.Length == 8 && (use.PreviousEpoch? ==> wEpoch >= 1)
      reads this, writeSequence, lastWriteSequence
      ensures |s| == 8
    {
      TwoBytes(EpochFor(use)) + SequenceFor(use)[2..]
    }
  }

  /** Six digits are a number below 2^48, and that number's digits. */
  lemma SequenceBound(digits: Octets)
    requires |digits| == 6
    ensures BigEndian.Value(digits) < SEQUENCES
  {
    BigEndian.ValueBound(digits);
    SixBytes();
  }

  lemma SequenceBytes(digits: Octets)
    requires |digits| == 6
    ensures BigEndian.Value(digits) < SEQUENCES && BigEndian.Encode(BigEndian.Value(digits), 6) == digits
  {
    SequenceBound(digits);
    BigEndian.EncodeValue(digits);
  }

  lemma {:induction false} ZeroValue(n: nat)
    ensures BigEndian.Value(Zeros(n)) == 0
  {
    if n > 0 {
      ZeroValue(n - 1);
      assert Zeros(n)[..n - 1] == Zeros(n - 1);
    }
  }

  /** Epoch and sequence number determine the record number and are determined by it. */
  lemma NumberInjective(e: nat, n: nat, e': nat, n': nat)
    requires e < EPOCHS && e' < EPOCHS && n < SEQUENCES && n' < SEQUENCES
    ensures Number(e, n) == Number(e', n') ==> e == e' && n == n'
  {
    NumberValue(e, n);
    NumberValue(e', n');
  }

  /** No two records of one direction get the same record number, so none gets the same nonce. */
  lemma FreshNumberFreshNonce(c: Context, epoch: nat, n: nat, n': nat)
    requires WellFormed(c) && c.aead.Some? && !c.randomVariableNonce
    requires epoch < EPOCHS && n < SEQUENCES && n' < SEQUENCES && n != n'
    ensures Nonce(c, Number(epoch, n)) != Nonce(c, Number(epoch, n'))
  {
    NumberInjective(epoch, n, epoch, n');
    DistinctNonces(c, Number(epoch, n), Number(epoch, n'));
  }

  /**
  After a wrap numbers repeat. The record at 2^48 - 1 is refused but its number is used up; the one
  behind it is sealed again, under number 0, and from there on no number of the epoch is a new one.
  */
  method WrapRepeats(w: RecordWriter, kind: Byte, text: Octets, random: Octets, maxOut: nat)
    returns (refused: bool, again: bool, out: Octets)
    requires w.Valid() && w.Next(CurrentEpoch) == SEQUENCES - 1 && |random| == w.ctx.variableNonceLen
    requires w.Fits(|text|, CurrentEpoch, maxOut) && CiphertextLen(w.ctx, |text|) < U16
    modifies w`sealed, w`wraps, w.writeSequence
    ensures w.Valid() && refused && again && w.wEpoch in w.wraps
    ensures (w.wEpoch, 0) in old(w.sealed)
    ensures var r := SealedRecord(w.ctx, kind, RecordVersion(w.ctx), w.wEpoch, 0, random, text);
            Proper(r) && out == Wire(r)
    ensures forall n: nat :: n < SEQUENCES ==> (w.wEpoch, n) in w.sealed
  {
    assert Counts(w.sealed, w.wEpoch, SEQUENCES - 1, w.wEpoch in w.wraps);
    assert (w.wEpoch, 0) in w.sealed;
    var ok;
    ok, out := w.SealRecord(kind, text, CurrentEpoch, random, maxOut);
    refused := !ok;
    again, out := w.SealRecord(kind, text, CurrentEpoch, random, maxOut);
  }

  /**
  At a reader with the record's keys, in its epoch, a sealed record is accepted exactly if it is not a
  replay and not too old, whatever follows it in the packet; and it opens to its text.
  */
  lemma SealedRecordAccepted(reader: RecordReader, s: Sealed, rest: Octets)
    requires reader.Valid() && Sound(s.ctx) && reader.readCtx == s.ctx && reader.rEpoch == s.epoch
    requires VersionOk(s.ctx, s.version) && CiphertextLen(s.ctx, |s.text|) <= MAX_ENCRYPTED_LENGTH
    ensures ParseRecord(Wire(s) + rest) ==
            Some(Parsed(s.kind, s.version, Number(s.epoch, s.n), Ciphertext(s), rest))
    ensures reader.Acceptable(Wire(s) + rest) <==> !DtlsReplay.Stale(reader.bitmap.seen, s.epoch * SEQUENCES + s.n)
    ensures OpenBytes(s.ctx, s.kind, s.version, Number(s.epoch, s.n), Ciphertext(s)) == Some(s.text)
  {
    hide OpenBytes, Wire, SealBytes, ParseRecord, WellFormed, Correct, FixedOverhead, BigEndian.Value, Number,
         EpochOf, DtlsReplay.Stale, RecordReader.Valid;
    WireParses(s, rest);
    OpenUndoesSeal(s.ctx, s.kind, s.version, Number(s.epoch, s.n), s.random, s.text);
    NumberValue(s.epoch, s.n);
  }

  lemma TwoDigits(v: nat)
    requires v < U16
    ensures U16Of(TwoBytes(v)[0], TwoBytes(v)[1]) == v
  {
    assert v / 256 < 256;
  }

  /** The record number as a 64-bit integer, and its epoch. */
  lemma NumberValue(epoch: nat, n: nat)
    requires epoch < EPOCHS && n < SEQUENCES
    ensures BigEndian.Value(Number(epoch, n)) == epoch * SEQUENCES + n && EpochOf(Number(epoch, n)) == epoch
  {
    var number := Number(epoch, n);
    assert number[..2] == TwoBytes(epoch) && number[2..] == BigEndian.Encode(n, 6);
    assert number == number[..2] + number[2..];
    SixBytes();
    BigEndian.ValueEncode(n, 6);
    BigEndian.ValueConcat(number[..2], number[2..]);
    var a := number[..2];
    assert BigEndian.Value(a[..1]) == number[0] by { assert a[..1][..0] == []; }
    assert BigEndian.Value(a) == EpochOf(number);
    TwoDigits(epoch);
    Shift48(epoch);
  }
}
