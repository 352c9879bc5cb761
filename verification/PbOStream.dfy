/**
The output stream of `pb_encode.c` and the primitive encoders that write to it.

A stream either writes into a buffer (`pb_ostream_from_buffer`) or only counts
(`PB_OSTREAM_SIZING`, a stream without a callback). `log` remembers what has been given to the
stream; for a writing stream `Valid` says those are the bytes in the buffer.
*/
module PbOStream {
  import opened Bytes
  import opened PbWire
  import opened PbDescriptor
  import opened PbEncodeSpec

  class OStream {
    const writing: bool
    const buf: array<Byte>
    const start: nat
    const maxSize: nat
    var state: nat
    var bytesWritten: nat
    ghost var log: seq<Byte>

    ghost predicate Valid()
      reads this, buf
    {
      && bytesWritten == |log|
      && (writing ==>
            && bytesWritten <= maxSize && start + maxSize <= buf.Length && state == start + bytesWritten
            && buf[start..state] == log)
    }

    /** Whether `n` more bytes may be written. */
    ghost predicate Room(n: nat)
      reads this
    {
      writing ==> bytesWritten + n <= maxSize
    }

    /** The part of the buffer that is not this stream's to write. */
    ghost function Outside(): (seq<Byte>, seq<Byte>)
      reads this, buf
    {
      if writing && start + maxSize <= buf.Length then (buf[..start], buf[start + maxSize..]) else (buf[..], [])
    }

    /** `pb_ostream_from_buffer` on the `size` bytes of `buf` from `start` on. */
    constructor FromBuffer(buf: array<Byte>, start: nat, size: nat)
      requires start + size <= buf.Length
      ensures Valid() && writing && log == []
      ensures this.buf == buf && this.start == start && maxSize == size
    {
      this.writing, this.buf, this.start, this.maxSize := true, buf, start, size;
      this.state, this.bytesWritten, this.log := start, 0, [];
    }

    /** `PB_OSTREAM_SIZING`. */
    constructor Sizing()
      ensures Valid() && !writing && log == [] && fresh(buf)
    {
      var none := new Byte[0];
      this.writing, this.buf, this.start, this.maxSize := false, none, 0, 0;
      this.state, this.bytesWritten, this.log := 0, 0, [];
    }

    /** `buf_write`: copies byte by byte without a check of its own. */
    method BufWrite(data: seq<Byte>)
      requires writing && state + |data| <= buf.Length
      modifies this`state, buf
      ensures state == old(state) + |data|
      ensures buf[..old(state)] == old(buf[..])[..old(state)] && buf[old(state)..state] == data
      ensures buf[state..] == old(buf[..])[state..]
    {
      var dest := state;
      state := dest + |data|;
      for i := 0 to |data|
        invariant state == dest + |data|
        invariant buf[..dest] == old(buf[..])[..dest] && buf[dest..dest + i] == data[..i]
        invariant buf[dest + i..] == old(buf[..])[dest + i..]
      {
        buf[dest + i] := data[i];
        assert buf[dest..dest + i + 1] == buf[dest..dest + i] + [data[i]];
        assert data[..i + 1] == data[..i] + [data[i]];
        assert buf[dest + i + 1..] == buf[dest + i..][1..];
      }
    }

    /** `pb_write`. */
    method Write(data: seq<Byte>) returns (ok: bool)
      requires Valid()
      modifies this, buf
      ensures Wrote(this, Bytes(data), ok)
      ensures !ok ==> log == old(log)
    {
      if writing {
        if bytesWritten + |data| > maxSize {
          return false;
        }
        ghost var before := buf[..];
        BufWrite(data);
        ghost var end := start + maxSize;
        assert buf[start..state] == buf[..old(state)][start..] + buf[old(state)..state];
        assert before[start..old(state)] == before[..old(state)][start..];
        assert buf[..start] == buf[..old(state)][..start] && before[..start] == before[..old(state)][..start];
        assert buf[end..] == buf[state..][end - state..] && before[end..] == before[state..][end - state..];
      }
      bytesWritten := bytesWritten + |data|;
      log := log + data;
      return true;
    }

    /** `pb_write(stream, NULL, size)` on a sizing stream, standing for `size` bytes still to be produced. */
    method Count(size: nat, ghost data: seq<Byte>) returns (ok: bool)
      requires Valid() && !writing && size == |data|
      modifies this
      ensures Wrote(this, Bytes(data), ok)
    {
      bytesWritten := bytesWritten + size;
      log := log + data;
      return true;
    }

    /**
    The end of `pb_encode_submessage`: take over where the substream stopped. It is an error, "submsg
    size changed", exactly if that is not where the first pass said.
    */
    method Rejoin(substream: OStream, size: nat, ghost before: seq<Byte>) returns (ok: bool)
      requires writing && bytesWritten == |log| && state == start + bytesWritten && |before| == buf.Length
      requires bytesWritten + size <= maxSize && start + maxSize <= buf.Length && before[start..state] == log
      requires substream != this && substream.Valid() && substream.writing && substream.buf == buf
      requires substream.start == state && substream.maxSize == size
      requires substream.Outside() == (before[..state], before[state + size..])
      modifies this
      ensures Valid() && log == old(log) + substream.log && (ok <==> |substream.log| == size)
      ensures Outside() == (before[..start], before[start + maxSize..])
    {
      SubstreamWrote(before, buf[..], start, maxSize, state, size, substream.bytesWritten);
      bytesWritten := bytesWritten + substream.bytesWritten;
      state := substream.state;
      log := log + substream.log;
      if substream.bytesWritten != size {
        // "submsg size changed"
        return false;
      }
      return true;
    }
  }

  /** `n` bytes written at the front of `[at, at + size)` of the buffer follow what stands before `at`. */
  lemma SubstreamWrote(before: seq<Byte>, after: seq<Byte>, start: nat, maxSize: nat, at: nat, size: nat, n: nat)
    requires |before| == |after| && start <= at && at + size <= start + maxSize <= |before| && n <= size
    requires before[..at] == after[..at] && before[at + size..] == after[at + size..]
    ensures after[start..at + n] == before[start..at] + after[at..at + n]
    ensures before[..start] == after[..start] && before[start + maxSize..] == after[start + maxSize..]
  {
    assert before[start..at] == before[..at][start..] && after[start..at] == after[..at][start..];
    assert before[..start] == before[..at][..start] && after[..start] == after[..at][..start];
    var k := start + maxSize - (at + size);
    assert before[start + maxSize..] == before[at + size..][k..];
    assert after[start + maxSize..] == after[at + size..][k..];
  }

  function Size(e: Encoded): nat { match e case Bytes(b) => |b| case Failed => 0 }

  /**
  What every encoder does to its stream: it succeeds exactly when `e` is defined and fits, then
  appends `e` to what was there, and never touches the buffer outside the stream's own part.
  */
  twostate predicate Wrote(s: OStream, e: Encoded, ok: bool)
    reads s, s.buf
  {
    && s.Valid() && s.Outside() == old(s.Outside())
    && (ok <==> e.Bytes? && old(s.Room(Size(e))))
    && (ok ==> s.log == old(s.log) + e.b)
  }

  lemma Assoc<T>(a: seq<T>, b: seq<T>, c: seq<T>)
    ensures (a + b) + c == a + (b + c)
  {
  }

  /** The groups of `v` with the continuation bit on every one of them. */
  function Groups(v: nat): (g: seq<Byte>)
    ensures v > 0 ==> |g| > 0
  {
    if v == 0 then [] else [v % 128 + 128] + Groups(v / 128)
  }

  lemma {:induction false} GroupsAreVarint(v: nat)
    requires v > 0
    ensures var g := Groups(v); Varint(v) == g[..|g| - 1] + [g[|g| - 1] % 128]
  {
    if v >= 128 {
      var g, h := Groups(v), Groups(v / 128);
      GroupsAreVarint(v / 128);
      assert g == [v % 128 + 128] + h;
      assert g[..|g| - 1] == [v % 128 + 128] + h[..|h| - 1];
    } else {
      assert Groups(v) == [v + 128];
    }
  }

  /** The loop of `pb_encode_varint`: seven bits at a time into a buffer that ten bytes are enough for. */
  method VarintBytes(value: nat) returns (bytes: seq<Byte>)
    requires 0 < value < U64
    ensures bytes == Varint(value)
  {
    var buffer := new Byte[10];
    var i, v := 0, value;
    VarintFits(value);
    GroupsAreVarint(value);
    while v != 0
      invariant 0 <= i <= |Groups(value)| <= 10
      invariant buffer[..i] + Groups(v) == Groups(value)
    {
      ghost var done := buffer[..i];
      assert |Groups(v)| == |Groups(value)| - i;
      buffer[i] := v % 128 + 128;
      assert buffer[..i + 1] == done + [buffer[i]];
      Assoc(done, [buffer[i]], Groups(v / 128));
      v := v / 128;
      i := i + 1;
    }
    assert buffer[..i] == Groups(value);
    buffer[i - 1] := buffer[i - 1] % 128;
    assert buffer[..i] == Groups(value)[..i - 1] + [Groups(value)[i - 1] % 128];
    bytes := buffer[..i];
  }

  /** Since its log was `base`, a stream with this log has taken the part of `total` before `rest`. */
  ghost predicate Progress(base: seq<Byte>, log: seq<Byte>, total: Encoded, rest: Encoded)
  {
    base <= log && Then(Bytes(log[|base|..]), rest) == total
  }

  lemma Step(base: seq<Byte>, before: seq<Byte>, total: Encoded, e: Encoded, rest: Encoded)
    requires Progress(base, before, total, Then(e, rest)) && e.Bytes?
    ensures Progress(base, before + e.b, total, rest)
  {
    var done := before[|base|..];
    assert (before + e.b)[|base|..] == done + e.b;
    if rest.Bytes? { Assoc(done, e.b, rest.b); }
  }

  /** A part that is undefined or does not fit means the same of the whole. */
  lemma StepFails(base: seq<Byte>, before: seq<Byte>, total: Encoded, e: Encoded, rest: Encoded)
    requires Progress(base, before, total, Then(e, rest))
    ensures total.Bytes? ==> e.Bytes? && |before| + |e.b| <= |base| + |total.b|
  {
  }

  /** `pb_encode_varint`. */
  method EncodeVarint(s: OStream, value: nat) returns (ok: bool)
    requires s.Valid() && value < U64
    modifies s, s.buf
    ensures Wrote(s, Bytes(Varint(value)), ok)
  {
    if value < 128 {
      ok := s.Write([value]);
    } else {
      var bytes := VarintBytes(value);
      ok := s.Write(bytes);
    }
  }

  /** `pb_encode_svarint`. */
  method EncodeSVarint(s: OStream, value: int) returns (ok: bool)
    requires s.Valid() && -(U64 / 2) <= value < U64 / 2
    modifies s, s.buf
    ensures Wrote(s, Bytes(if Zigzag(value) >= 0 then Varint(Zigzag(value)) else []), ok)
  {
    ZigzagRoundTrip(value);
    var zigzagged: nat := if value < 0 then U64 - 1 - (2 * (value + U64)) % U64 else 2 * value;
    ok := EncodeVarint(s, zigzagged);
  }

  lemma FourBytes(v: nat)
    ensures LittleEndian(v, 4) == [v % 256, (v / 0x100) % 256, (v / 0x1_0000) % 256, (v / 0x100_0000) % 256]
  {
    var v1, v2 := v / 256, v / 0x1_0000;
    assert v1 / 256 == v2 && v1 % 256 == (v / 0x100) % 256;
    assert v2 / 256 == v / 0x100_0000;
    assert LittleEndian(v2, 2) == [v2 % 256, (v2 / 256) % 256];
    assert LittleEndian(v1, 3) == [v1 % 256] + LittleEndian(v2, 2);
    assert LittleEndian(v, 4) == [v % 256] + LittleEndian(v1, 3);
  }

  lemma EightBytes(v: nat)
    ensures LittleEndian(v, 8) == LittleEndian(v, 4) + LittleEndian(v / 0x1_0000_0000, 4)
  {
    LittleEndianSplit(v, 4, 4);
    var v2 := v / 0x1_0000;
    assert DivideOut(v, 4) == DivideOut(v / 256, 3) == DivideOut(v2, 2);
    assert DivideOut(v2, 2) == DivideOut(v2 / 256, 1) == v2 / 0x1_0000;
  }

  /** The first `n` bytes and the bytes of what is left after dividing 256 out `n` times. */
  lemma {:induction false} LittleEndianSplit(v: nat, n: nat, m: nat)
    ensures LittleEndian(v, n + m) == LittleEndian(v, n) + LittleEndian(DivideOut(v, n), m)
    decreases n
  {
    if n > 0 {
      LittleEndianSplit(v / 256, n - 1, m);
    } else {
      assert LittleEndian(v, 0) + LittleEndian(v, m) == LittleEndian(v, m);
    }
  }

  function DivideOut(v: nat, n: nat): nat { if n == 0 then v else DivideOut(v / 256, n - 1) }

  /** `pb_encode_fixed32`. */
  method EncodeFixed32(s: OStream, val: nat) returns (ok: bool)
    requires s.Valid()
    modifies s, s.buf
    ensures Wrote(s, Bytes(LittleEndian(val, 4)), ok)
  {
    FourBytes(val);
    ok := s.Write([val % 256, (val / 0x100) % 256, (val / 0x1_0000) % 256, (val / 0x100_0000) % 256]);
  }

  /** `pb_encode_fixed64`. */
  method EncodeFixed64(s: OStream, val: nat) returns (ok: bool)
    requires s.Valid()
    modifies s, s.buf
    ensures Wrote(s, Bytes(LittleEndian(val, 8)), ok)
  {
    var high := val / 0x1_0000_0000;
    EightBytes(val);
    FourBytes(val);
    FourBytes(high);
    ok := s.Write([val % 256, (val / 0x100) % 256, (val / 0x1_0000) % 256, (val / 0x100_0000) % 256,
                   high % 256, (high / 0x100) % 256, (high / 0x1_0000) % 256, (high / 0x100_0000) % 256]);
  }

  /** `pb_encode_tag`. */
  method EncodeTag(s: OStream, wiretype: nat, tag: nat) returns (ok: bool)
    requires s.Valid() && wiretype < 8 && tag < U32
    modifies s, s.buf
    ensures Wrote(s, Bytes(Tag(wiretype, tag)), ok)
  {
    ok := EncodeVarint(s, 8 * tag + wiretype);
  }

  /** `pb_encode_tag_for_field`. */
  method EncodeTagForField(s: OStream, f: Field) returns (ok: bool)
    requires s.Valid() && f.tag < U32
    modifies s, s.buf
    ensures Wrote(s, Bytes(Tag(WireType(f.ltype), f.tag)), ok)
  {
    ok := EncodeTag(s, WireType(f.ltype), f.tag);
  }

  /** `pb_encode_string`. */
  method EncodeString(s: OStream, data: seq<Byte>) returns (ok: bool)
    requires s.Valid() && |data| < U64
    modifies s, s.buf
    ensures Wrote(s, Bytes(Delimited(data)), ok)
  {
    ok := EncodeVarint(s, |data|);
    if ok {
      ghost var mid := s.log;
      ok := s.Write(data);
      assert old(s.log) + Delimited(data) == (old(s.log) + Varint(|data|)) + data;
    }
  }
}
