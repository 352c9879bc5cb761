/**
One incoming DTLS handshake message under reassembly (`hm_fragment`): the message with its header
rebuilt, and a bitmap of the body bytes received. The bitmap refines the set of bytes covered and
is freed exactly when that set is the whole body.
*/
module DtlsFragment {
  import opened Bits
  import opened Bytes
  import opened AeadContext
  import BigEndian

  const HM_HEADER_LENGTH: nat := 12

  /** `hm_header_st`. */
  datatype Header = Header(kind: Byte, msgLen: nat, seqnum: nat, fragOff: nat, fragLen: nat)

  predicate GoodHeader(h: Header)
  {
    h.msgLen < 0x100_0000 && h.seqnum < U16 && h.fragOff < 0x100_0000 && h.fragLen < 0x100_0000
  }

  function HeaderBytes(h: Header): (s: Octets)
    ensures |s| == HM_HEADER_LENGTH
  {
    [h.kind] + BigEndian.Encode(h.msgLen, 3) + BigEndian.Encode(h.seqnum, 2) +
    BigEndian.Encode(h.fragOff, 3) + BigEndian.Encode(h.fragLen, 3)
  }

  /** A whole message as the transcript sees it: one fragment holding everything. */
  function MessageBytes(kind: Byte, seqnum: nat, body: Octets): Octets
  {
    HeaderBytes(Header(kind, |body|, seqnum, 0, |body|)) + body
  }

  /** The number in a few header bytes. */
  function Field(s: Octets, from: nat, to: nat): nat
    requires from <= to <= |s|
  {
    BigEndian.Value(s[from..to])
  }

  datatype Fragment = Fragment(header: Header, body: Octets, rest: Octets)

  /** `dtls1_parse_fragment`: a header, as many bytes as it says, and what follows. */
  function ParseFragment(s: Octets): (f: Option<Fragment>)
    ensures f.Some? ==> |f.value.rest| < |s| && |f.value.body| == f.value.header.fragLen
  {
    if |s| < HM_HEADER_LENGTH then None
    else
      var h := Header(s[0], Field(s, 1, 4), Field(s, 4, 6), Field(s, 6, 9), Field(s, 9, 12));
      if |s| < HM_HEADER_LENGTH + h.fragLen then None
      else Some(Fragment(h, s[HM_HEADER_LENGTH..HM_HEADER_LENGTH + h.fragLen], s[HM_HEADER_LENGTH + h.fragLen..]))
  }

  lemma HeaderFields(s: Octets)
    requires |s| >= HM_HEADER_LENGTH
    ensures GoodHeader(Header(s[0], Field(s, 1, 4), Field(s, 4, 6), Field(s, 6, 9), Field(s, 9, 12)))
  {
    FieldWidths();
    BigEndian.ValueBound(s[1..4]);
    BigEndian.ValueBound(s[4..6]);
    BigEndian.ValueBound(s[6..9]);
    BigEndian.ValueBound(s[9..12]);
  }

  lemma FieldWidths()
    ensures Pow2(8 * 3) == 0x100_0000 && Pow2(8 * 2) == U16
  {
    BigEndian.Times256(0);
    BigEndian.Times256(1);
    BigEndian.Times256(2);
  }

  /** Parsing takes a fragment apart again. */
  lemma ParseUndoesFragment(h: Header, body: Octets, rest: Octets)
    requires GoodHeader(h) && |body| == h.fragLen
    ensures ParseFragment(HeaderBytes(h) + body + rest) == Some(Fragment(h, body, rest))
  {
    var s := HeaderBytes(h) + body + rest;
    var a, b, c, d := BigEndian.Encode(h.msgLen, 3), BigEndian.Encode(h.seqnum, 2),
                      BigEndian.Encode(h.fragOff, 3), BigEndian.Encode(h.fragLen, 3);
    assert s[1..4] == a && s[4..6] == b && s[6..9] == c && s[9..12] == d;
    FieldWidths();
    BigEndian.ValueEncode(h.msgLen, 3);
    BigEndian.ValueEncode(h.seqnum, 2);
    BigEndian.ValueEncode(h.fragOff, 3);
    BigEndian.ValueEncode(h.fragLen, 3);
    assert s[12..12 + |body|] == body && s[12 + |body|..] == rest;
  }

  /** `bit_range`: `~((1u << start) - 1) & ((1u << end) - 1)` as a byte. */
  function BitRange(start: nat, end: nat): (b: Byte)
    requires start <= 8 && end <= 8
  {
    OneBelow(start);
    And(Not(Pow2(start) - 1, 32), Pow2(end) - 1) % 256
  }

  lemma OneBelow(start: nat)
    requires start <= 8
    ensures Pow2(start) - 1 < Pow2(32)
  {
    Pow2Mono(start, 32);
  }

  /** Bits `start`, inclusive, to `end`, exclusive, are set. */
  lemma BitRangeBits(start: nat, end: nat, i: nat)
    requires start <= 8 && end <= 8
    ensures Bit(BitRange(start, end), i) <==> start <= i < end
  {
    OneBelow(start);
    var x := And(Not(Pow2(start) - 1, 32), Pow2(end) - 1);
    assert Pow2(8) == 256;
    ModBits(x, 8, i);
    AndBits(Not(Pow2(start) - 1, 32), Pow2(end) - 1, i);
    NotBits(Pow2(start) - 1, 32, i);
    MaskBits(start, i);
    MaskBits(end, i);
  }

  /** Whether bit `i` of the bitmap is set. */
  predicate Marked(bitmap: Octets, i: nat)
    requires i / 8 < |bitmap|
  {
    Bit(bitmap[i / 8], i % 8)
  }

  /** All ones in every byte that belongs to the message, and the last byte's low bits. */
  predicate AllMarked(bitmap: Octets, n: nat)
    requires n <= 8 * |bitmap|
  {
    forall i: nat :: i < n ==> Marked(bitmap, i)
  }

  /** `b |= bit_range(from, to)` on one byte of the bitmap. */
  lemma MarkByte(bitmap: Octets, k: nat, from: nat, to: nat, i: nat)
    requires k < |bitmap| && from <= to <= 8 && i / 8 < |bitmap|
    ensures Or(bitmap[k], BitRange(from, to)) < 256
    ensures Marked(bitmap[k := Or(bitmap[k], BitRange(from, to))], i) <==>
            Marked(bitmap, i) || 8 * k + from <= i < 8 * k + to
  {
    assert Pow2(8) == 256;
    OrBound(bitmap[k], BitRange(from, to), 8);
    if i / 8 == k {
      OrBits(bitmap[k], BitRange(from, to), i % 8);
      BitRangeBits(from, to, i % 8);
    }
  }

  lemma FullByte(b: Byte, n: nat)
    requires 0 < n <= 8
    ensures n == 8 ==> BitRange(0, n) == 255
    ensures b == BitRange(0, n) <==> LowOnes(b, 8, n)
  {
    assert Pow2(8) == 256;
    EqualsMask(b, 8, n);
    forall i: nat ensures Bit(BitRange(0, n), i) == Bit(Pow2(n) - 1, i) {
      BitRangeBits(0, n, i);
      MaskBits(n, i);
    }
    BitsDetermine(BitRange(0, n), Pow2(n) - 1);
  }

  /** The completeness test of `dtls1_hm_fragment_mark`, for a bitmap with nothing set past `n`. */
  predicate LooksComplete(bitmap: Octets, n: nat)
    requires |bitmap| == (n + 7) / 8
  {
    && (forall k :: 0 <= k < n / 8 ==> bitmap[k] == 255)
    && (n % 8 != 0 ==> bitmap[n / 8] == BitRange(0, n % 8))
  }

  lemma ByteFull(bitmap: Octets, k: nat)
    requires k < |bitmap|
    ensures bitmap[k] == 255 <==> forall i: nat :: 8 * k <= i < 8 * k + 8 ==> Marked(bitmap, i)
  {
    FullByte(bitmap[k], 8);
    if bitmap[k] == 255 {
      forall i: nat | 8 * k <= i < 8 * k + 8 ensures Marked(bitmap, i) {
        assert i / 8 == k && i % 8 < 8;
      }
    } else {
      var j: nat :| j < 8 && !(Bit(bitmap[k], j) <==> j < 8);
      assert (8 * k + j) / 8 == k && (8 * k + j) % 8 == j;
      assert !Marked(bitmap, 8 * k + j);
    }
  }

  lemma LastByteFull(bitmap: Octets, k: nat, m: nat)
    requires k < |bitmap| && 0 < m < 8
    requires forall i: nat :: 8 * k + m <= i < 8 * k + 8 ==> !Marked(bitmap, i)
    ensures bitmap[k] == BitRange(0, m) <==> forall i: nat :: 8 * k <= i < 8 * k + m ==> Marked(bitmap, i)
  {
    FullByte(bitmap[k], m);
    forall j: nat | j < 8 ensures Marked(bitmap, 8 * k + j) <==> Bit(bitmap[k], j) {
      assert (8 * k + j) / 8 == k && (8 * k + j) % 8 == j;
    }
    if bitmap[k] == BitRange(0, m) {
      forall i: nat | 8 * k <= i < 8 * k + m ensures Marked(bitmap, i) {
        assert i == 8 * k + (i - 8 * k) && Bit(bitmap[k], i - 8 * k);
      }
    } else {
      var j: nat :| j < 8 && !(Bit(bitmap[k], j) <==> j < m);
      assert Marked(bitmap, 8 * k + j) <==> Bit(bitmap[k], j);
    }
  }

  lemma CompleteMeansAll(bitmap: Octets, n: nat)
    requires |bitmap| == (n + 7) / 8
    requires forall i: nat :: n <= i < 8 * |bitmap| ==> !Marked(bitmap, i)
    ensures LooksComplete(bitmap, n) <==> AllMarked(bitmap, n)
  {
    forall k | 0 <= k < n / 8
      ensures bitmap[k] == 255 <==> forall i: nat :: 8 * k <= i < 8 * k + 8 ==> Marked(bitmap, i)
    {
      ByteFull(bitmap, k);
    }
    if n % 8 != 0 { LastByteFull(bitmap, n / 8, n % 8); }
    if LooksComplete(bitmap, n) {
      forall i: nat | i < n ensures Marked(bitmap, i) {
        var k := i / 8;
        assert 8 * k <= i < 8 * k + 8;
        assert k < n / 8 ==> bitmap[k] == 255;
      }
    }
  }

  class HmFragment {
    const kind: Byte
    const seqnum: nat
    const msgLen: nat
    const data: array<Byte>
    // null once the message is complete
    var reassembly: array?<Byte>
    ghost var covered: set<nat>

    ghost function Bitmap(): set<object>
      reads this
    {
      if reassembly != null then {reassembly} else {}
    }

    ghost function Footprint(): set<object>
      reads this
    {
      {this, data} + Bitmap()
    }

    ghost predicate Valid()
      reads Footprint()
    {
      && msgLen < 0x100_0000 && seqnum < U16 && data.Length == HM_HEADER_LENGTH + msgLen
      && data[..HM_HEADER_LENGTH] == HeaderBytes(Header(kind, msgLen, seqnum, 0, msgLen))
      && (forall i :: i in covered ==> i < msgLen)
      && if reassembly == null then forall i: nat :: i < msgLen ==> i in covered
         else
           && reassembly != data && reassembly.Length == (msgLen + 7) / 8
           && Refines(reassembly[..], covered)
           && exists i: nat :: i < msgLen && i !in covered
    }

    /** `dtls1_hm_fragment_new`. */
    constructor (h: Header)
      requires GoodHeader(h)
      ensures Valid() && covered == {} && fresh(Footprint())
      ensures kind == h.kind && seqnum == h.seqnum && msgLen == h.msgLen
      ensures reassembly == null <==> h.msgLen == 0
    {
      kind, seqnum, msgLen := h.kind, h.seqnum, h.msgLen;
      data := new Byte[HM_HEADER_LENGTH + h.msgLen];
      reassembly := null;
      covered := {};
      new;
      Copy(data, 0, HeaderBytes(Header(h.kind, h.msgLen, h.seqnum, 0, h.msgLen)));
      if h.msgLen > 0 {
        reassembly := new Byte[(h.msgLen + 7) / 8](_ => 0);
        forall i: nat ensures !Bit(0, i) { ZeroBits(i); }
        assert 0 !in covered;
      }
    }

    /** The body received so far; only the bytes in `covered` mean anything. */
    ghost function Body(): Octets
      requires data.Length >= HM_HEADER_LENGTH
      reads data
    {
      data[HM_HEADER_LENGTH..]
    }

    /** Copies a fragment's bytes into place and marks them received. */
    method Receive(fragOff: nat, body: Octets)
      requires Valid() && reassembly != null && fragOff + |body| <= msgLen
      modifies this, data, reassembly
      ensures Valid() && covered == old(covered) + Range(fragOff, fragOff + |body|)
      ensures reassembly == null || reassembly == old(reassembly)
      ensures reassembly == null <==> covered == Range(0, msgLen)
      ensures Body() == Splice(old(Body()), fragOff, body)
    {
      var at := HM_HEADER_LENGTH + fragOff;
      ghost var before := data[..];
      Copy(data, at, body);
      assert data[..] == data[..at] + data[at..at + |body|] + data[at + |body|..];
      assert data[..] == Splice(before, at, body);
      SpliceBehind(before, HM_HEADER_LENGTH, fragOff, body);
      Mark(fragOff, fragOff + |body|);
    }

    /** `dtls1_hm_fragment_mark`. */
    method Mark(start: nat, end: nat)
      requires Valid() && reassembly != null && start <= end <= msgLen
      modifies this`reassembly, this`covered, reassembly
      ensures Valid() && covered == old(covered) + Range(start, end)
      ensures reassembly == null || reassembly == old(reassembly)
      ensures reassembly == null <==> covered == Range(0, msgLen)
    {
      MarkRange(reassembly, start, end, covered);
      covered := covered + Range(start, end);
      var complete := IsComplete(reassembly, msgLen, covered);
      if complete {
        reassembly := null;
      }
    }
  }

  /** `s` with the bytes from `at` on replaced by `b`. */
  function Splice(s: Octets, at: nat, b: Octets): (r: Octets)
    requires at + |b| <= |s|
    ensures |r| == |s|
  {
    s[..at] + b + s[at + |b|..]
  }

  lemma SpliceBehind(s: Octets, n: nat, at: nat, b: Octets)
    requires n + at + |b| <= |s|
    ensures Splice(s, n + at, b)[..n] == s[..n]
    ensures Splice(s, n + at, b)[n..] == Splice(s[n..], at, b)
  {
  }

  predicate Between(i: nat, start: nat, end: nat) { start <= i < end }

  /** The bytes from `start` up to `end`. */
  function Range(start: nat, end: nat): (r: set<nat>)
    ensures forall i: nat :: i in r <==> start <= i < end
  {
    set i: nat | i < end && Between(i, start, end)
  }

  /** Bit `i` of the bitmap is set exactly when byte `i` is covered. */
  ghost predicate Refines(bitmap: Octets, covered: set<nat>)
  {
    forall i: nat :: i / 8 < |bitmap| ==> (Marked(bitmap, i) <==> i in covered)
  }

  /** The marking part of `dtls1_hm_fragment_mark`. */
  method MarkRange(bitmap: array<Byte>, start: nat, end: nat, ghost covered: set<nat>)
    requires start <= end <= 8 * bitmap.Length && Refines(bitmap[..], covered)
    modifies bitmap
    ensures Refines(bitmap[..], covered + Range(start, end))
  {
    if start == end {
      assert covered + Range(start, end) == covered;
      return;
    }
    var first, last := start / 8, end / 8;
    if first == last {
      OrByte(bitmap, first, start % 8, end % 8, covered);
    } else {
      OrByte(bitmap, first, start % 8, 8, covered);
      var i := first + 1;
      while i < last
        invariant first < i <= last
        invariant Refines(bitmap[..], covered + Range(start, 8 * i))
      {
        FillByte(bitmap, i, covered + Range(start, 8 * i));
        assert covered + Range(start, 8 * i) + Range(8 * i, 8 * i + 8) == covered + Range(start, 8 * (i + 1));
        i := i + 1;
      }
      if end % 8 != 0 {
        OrByte(bitmap, last, 0, end % 8, covered + Range(start, 8 * last));
        assert covered + Range(start, 8 * last) + Range(8 * last, end) == covered + Range(start, end);
      }
    }
  }

  method OrByte(bitmap: array<Byte>, k: nat, from: nat, to: nat, ghost covered: set<nat>)
    requires k < bitmap.Length && from <= to <= 8 && Refines(bitmap[..], covered)
    modifies bitmap
    ensures Refines(bitmap[..], covered + Range(8 * k + from, 8 * k + to))
  {
    ghost var was := bitmap[..];
    MarkByte(was, k, from, to, 8 * k);
    bitmap[k] := Or(bitmap[k], BitRange(from, to));
    assert bitmap[..] == was[k := Or(was[k], BitRange(from, to))];
    forall i: nat | i / 8 < |was|
      ensures Marked(bitmap[..], i) <==> i in covered + Range(8 * k + from, 8 * k + to)
    {
      MarkByte(was, k, from, to, i);
      assert Marked(was, i) <==> i in covered;
    }
  }

  method FillByte(bitmap: array<Byte>, k: nat, ghost covered: set<nat>)
    requires k < bitmap.Length && Refines(bitmap[..], covered)
    modifies bitmap
    ensures Refines(bitmap[..], covered + Range(8 * k, 8 * k + 8))
  {
    ghost var was := bitmap[..];
    bitmap[k] := 0xff;
    forall i: nat | i / 8 < |was|
      ensures Marked(bitmap[..], i) <==> i in covered + Range(8 * k, 8 * k + 8)
    {
      assert Pow2(8) == 256;
      MaskBits(8, i % 8);
      assert Marked(was, i) <==> i in covered;
    }
  }

  /** The completeness check of `dtls1_hm_fragment_mark`. */
  method IsComplete(bitmap: array<Byte>, msgLen: nat, ghost covered: set<nat>) returns (complete: bool)
    requires bitmap.Length == (msgLen + 7) / 8 && Refines(bitmap[..], covered)
    requires forall i :: i in covered ==> i < msgLen
    ensures complete <==> covered == Range(0, msgLen)
    ensures complete <==> forall i: nat :: i < msgLen ==> i in covered
  {
    CompleteMeansAll(bitmap[..], msgLen);
    assert AllMarked(bitmap[..], msgLen) <==> forall i: nat :: i < msgLen ==> i in covered;
    for i := 0 to msgLen / 8
      invariant forall k :: 0 <= k < i ==> bitmap[k] == 255
    {
      if bitmap[i] != 0xff {
        return false;
      }
    }
    return msgLen % 8 == 0 || bitmap[msgLen / 8] == BitRange(0, msgLen % 8);
  }
}
