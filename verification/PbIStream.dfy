/**
The input stream of `pb_decode.c` and the primitive decoders that read from it. `Rest` is what a
stream has left; each method is proved to do what `PbWire` and `PbDecodeSpec` say on it.
*/
module PbIStream {
  import opened Bits
  import opened Bytes
  import opened PbWire
  import opened PbDecodeSpec
  import PbEncodeSpec

  class IStream {
    const buf: array<Byte>
    var state: nat
    var bytesLeft: nat

    ghost predicate Valid()
      reads this
    {
      state + bytesLeft <= buf.Length
    }

    /** The bytes left to read. */
    ghost function Rest(): (r: seq<Byte>)
      requires Valid()
      reads this, buf
      ensures |r| == bytesLeft
    {
      buf[state..state + bytesLeft]
    }

    ghost function End(): nat
      reads this
    {
      state + bytesLeft
    }

    /** The next bytes and those behind them. */
    lemma RestSplit(n: nat)
      requires Valid() && n <= bytesLeft
      ensures buf[state..state + n] == Rest()[..n] && buf[state + n..End()] == Rest()[n..]
    {
    }

    /** `pb_istream_from_buffer` on `size` bytes from `start` on. */
    constructor FromBuffer(buf: array<Byte>, start: nat, size: nat)
      requires start + size <= buf.Length
      ensures Valid() && this.buf == buf && state == start && bytesLeft == size
    {
      this.buf, state, bytesLeft := buf, start, size;
    }

    /** `pb_readbyte`. */
    method ReadByte() returns (ok: bool, b: Byte)
      requires Valid()
      modifies this
      ensures Valid() && ok == (old(bytesLeft) > 0)
      ensures ok ==> b == old(Rest())[0] && Rest() == old(Rest())[1..] && End() == old(End())
      ensures !ok ==> state == old(state) && bytesLeft == old(bytesLeft)
    {
      if bytesLeft == 0 {
        return false, 0;
      }
      b := buf[state];
      state := state + 1;
      bytesLeft := bytesLeft - 1;
      ok := true;
    }

    /** `pb_read` into memory. */
    method Read(count: nat) returns (ok: bool, data: seq<Byte>)
      requires Valid()
      modifies this
      ensures Took(this, Take(old(Rest()), count), ok)
      ensures ok ==> data == old(Rest())[..count]
    {
      if bytesLeft < count {
        return false, [];
      }
      RestSplit(count);
      data := CopyOut(buf, state, count);
      state := state + count;
      bytesLeft := bytesLeft - count;
      ok := true;
    }

    /** `pb_read(stream, NULL, count)`. */
    method Discard(count: nat) returns (ok: bool)
      requires Valid()
      modifies this
      ensures Took(this, Skip(old(Rest()), count), ok)
      ensures !ok ==> End() == old(End())
    {
      if bytesLeft < count {
        return false;
      }
      state := state + count;
      bytesLeft := bytesLeft - count;
      return true;
    }
  }

  /** `buf_read`: bytes copied into memory of their own. */
  method CopyOut(src: array<Byte>, at: nat, count: nat) returns (data: seq<Byte>)
    requires at + count <= src.Length
    ensures data == src[at..at + count]
  {
    var dest := new Byte[count];
    for i := 0 to count
      modifies dest
      invariant forall k :: 0 <= k < i ==> dest[k] == src[at + k]
    {
      dest[i] := src[at + i];
    }
    data := dest[..];
  }

  /** The method did on the stream what `r` says: the same success, the same bytes left. */
  twostate predicate Took<T>(s: IStream, new r: Parse<T>, ok: bool)
    requires old(s.Valid())
    reads s, s.buf
  {
    && s.Valid() && s.End() <= old(s.End())
    && (ok <==> r.Ok?)
    && (ok ==> s.Rest() == r.rest && s.End() == old(s.End()))
  }

  /** `pb_decode_varint32`. */
  method ReadVarint32(s: IStream) returns (ok: bool, dest: nat)
    requires s.Valid()
    modifies s
    ensures Took(s, DecodeVarint32(old(s.Rest())), ok)
    ensures ok ==> dest == DecodeVarint32(old(s.Rest())).value
  {
    hide Or, Shl;
    dest := 0;
    var b;
    ok, b := s.ReadByte();
    if !ok { return; }
    if b < 128 {
      return true, b;
    }
    var bitpos: nat, result: nat := 7, b % 128;
    var more := true;
    ghost var whole := DecodeVarint32(old(s.Rest()));
    while more
      invariant s.Valid() && s.End() == old(s.End())
      invariant more ==> whole == Varint32Loop(s.Rest(), bitpos, result)
      invariant !more ==> whole == if bitpos == 35 && (b / 16) % 8 != 0 then Err else Ok(result, s.Rest())
      decreases more, s.bytesLeft
    {
      ok, b := s.ReadByte();
      if !ok { return; }
      if bitpos >= 32 {
        var signExtension := if bitpos < 63 then 0xFF else 0x01;
        if b % 128 != 0 && (result / 0x8000_0000 == 0 || b != signExtension) {
          // "varint overflow"
          return false, 0;
        }
      } else {
        result := Or(result, Shl(b % 128, bitpos, 32));
      }
      bitpos := (bitpos + 7) % 256;
      more := b >= 128;
    }
    if bitpos == 35 && (b / 16) % 8 != 0 {
      // "varint overflow"
      return false, 0;
    }
    return true, result;
  }

  /** `pb_decode_varint`. */
  method ReadVarint(s: IStream) returns (ok: bool, dest: nat)
    requires s.Valid()
    modifies s
    ensures Took(s, DecodeVarint64(old(s.Rest())), ok)
    ensures ok ==> dest == DecodeVarint64(old(s.Rest())).value < U64
  {
    hide Or, Shl, Varint64Value;
    dest := 0;
    var bitpos: nat, result: nat := 0, 0;
    var more := true;
    ghost var whole := Varint64Value(old(s.Rest()));
    while more
      invariant s.Valid() && s.End() == old(s.End()) && bitpos <= 70
      invariant whole == if more then Varint64Loop(s.Rest(), bitpos, result) else Ok(result, s.Rest())
      decreases more, s.bytesLeft
    {
      if bitpos >= 64 {
        // "varint overflow"
        return false, 0;
      }
      var b;
      ok, b := s.ReadByte();
      if !ok { return; }
      result := Or(result, Shl(b % 128, bitpos, 64));
      bitpos := (bitpos + 7) % 256;
      more := b >= 128;
    }
    return true, result;
  }

  /** `pb_decode_svarint`. */
  method ReadSVarint(s: IStream) returns (ok: bool, dest: int)
    requires s.Valid()
    modifies s
    ensures Took(s, DecodeVarint64(old(s.Rest())), ok)
    ensures ok ==> dest == Unzigzag(DecodeVarint64(old(s.Rest())).value)
  {
    var value;
    ok, value := ReadVarint(s);
    dest := if value % 2 == 1 then ToSigned64(U64 - 1 - value / 2) else value / 2;
  }

  /** `pb_skip_varint`. */
  method SkipVarintBytes(s: IStream) returns (ok: bool)
    requires s.Valid()
    modifies s
    ensures Took(s, SkipVarint(old(s.Rest())), ok)
  {
    var more := true;
    ghost var whole := SkipVarint(old(s.Rest()));
    while more
      invariant s.Valid() && s.End() == old(s.End())
      invariant whole == if more then SkipVarint(s.Rest()) else Ok((), s.Rest())
      decreases more, s.bytesLeft
    {
      var b;
      ok, b := s.ReadByte();
      if !ok { return; }
      more := b >= 128;
    }
    return true;
  }

  /** `pb_decode_tag` on a stream with bytes left; `eof` reports a zero key. */
  method ReadTag(s: IStream) returns (ok: bool, wiretype: nat, tag: nat, eof: bool)
    requires s.Valid() && s.bytesLeft > 0
    modifies s
    ensures s.Valid() && s.End() <= old(s.End())
    ensures var r := DecodeTag(old(s.Rest()));
            if r.Err? then !ok && !eof
            else
              && s.Rest() == r.rest && s.End() == old(s.End())
              && (if r.value.EndOfMessage? then !ok && eof
                  else ok && !eof && wiretype == r.value.wiretype && tag == r.value.tag)
  {
    wiretype, tag, eof := 0, 0, false;
    var temp;
    ok, temp := ReadVarint32(s);
    if !ok { return; }
    if temp == 0 {
      eof := true;
      ok := false;
      return;
    }
    tag := temp / 8;
    wiretype := temp % 8;
  }

  /** `pb_skip_field`. */
  method SkipOneField(s: IStream, wiretype: nat) returns (ok: bool)
    requires s.Valid()
    modifies s
    ensures Took(s, SkipField(wiretype, old(s.Rest())), ok)
  {
    if wiretype == PbEncodeSpec.WT_VARINT {
      ok := SkipVarintBytes(s);
    } else if wiretype == PbEncodeSpec.WT_64BIT {
      ok := s.Discard(8);
    } else if wiretype == PbEncodeSpec.WT_STRING {
      var length;
      ok, length := ReadVarint32(s);
      if ok {
        ok := s.Discard(length);
      }
    } else if wiretype == PbEncodeSpec.WT_32BIT {
      ok := s.Discard(4);
    } else {
      // "invalid wire_type"
      ok := false;
    }
  }

  // ---- fixed-width integers ----

  /** The C expression `b[0] << 0 | b[1] << 8 | ...` over a word of `width` bits. */
  function OrBytes(b: seq<Byte>, width: nat): nat
  {
    if b == [] then 0
    else var n := |b| - 1; Or(OrBytes(b[..n], width), Shl(b[n], 8 * n, width))
  }

  lemma {:induction false} LittleEndianSnoc(s: seq<Byte>, b: Byte)
    ensures FromLittleEndian(s + [b]) == FromLittleEndian(s) + Scale(b, 8 * |s|)
    ensures FromLittleEndian(s) < Pow2(8 * |s|)
  {
    if s == [] {
      assert [] + [b] == [b] && FromLittleEndian([b]) == b + 256 * FromLittleEndian([]);
    } else {
      LittleEndianSnoc(s[1..], b);
      assert (s + [b])[1..] == s[1..] + [b];
      SevenMore(8 * (|s| - 1));
      var x, k := b, 8 * (|s| - 1);
      assert Scale(x, k + 7) == 128 * Scale(x, k) by { ScaleTwice(x, k, 7); Scale7(Scale(x, k)); }
    }
  }

  /** Joining bytes with shifts and ORs gives the little-endian number. */
  lemma {:induction false} OrBytesIsLittleEndian(b: seq<Byte>, width: nat)
    requires 8 * |b| <= width
    ensures OrBytes(b, width) == FromLittleEndian(b) < Pow2(8 * |b|)
  {
    if b != [] {
      var n := |b| - 1;
      OrBytesIsLittleEndian(b[..n], width);
      LittleEndianSnoc(b[..n], b[n]);
      assert b == b[..n] + [b[n]];
      LittleEndianSnoc(b, 0);
      ScaleStrict(b[n], 256, 8 * n);
      assert Pow2(8) == 256;
      ScalePow2(8, 8 * n);
      Pow2Mono(8 * |b|, width);
      ModSmall(Scale(b[n], 8 * n), Pow2(width));
      OrDisjoint(FromLittleEndian(b[..n]), b[n], 8 * n);
    }
  }

  /** `pb_decode_fixed32` and `pb_decode_fixed64`. */
  method ReadFixed(s: IStream, count: nat) returns (ok: bool, v: nat)
    requires s.Valid() && (count == 4 || count == 8)
    modifies s
    ensures Took(s, Take(old(s.Rest()), count), ok)
    ensures ok ==> v == FromLittleEndian(old(s.Rest())[..count])
  {
    var bytes;
    ok, bytes := s.Read(count);
    v := 0;
    if ok {
      OrBytesIsLittleEndian(bytes, 8 * count);
      v := OrBytes(bytes, 8 * count);
    }
  }

  // ---- substreams ----

  /**
  `pb_make_string_substream`: a stream over the bytes a length prefix counts. The parent's
  `bytes_left` already excludes them, but its position stays until the substream is closed.
  */
  method MakeSubstream(s: IStream) returns (ok: bool, sub: IStream)
    requires s.Valid()
    modifies s
    ensures s.Valid() && s.End() <= old(s.End()) && fresh(sub) && sub.Valid()
    ensures var r := DecodeDelimited(old(s.Rest()));
            (ok <==> r.Ok?) &&
            (ok ==> sub.buf == s.buf && sub.Rest() == r.value && sub.state == s.state &&
                    s.state + |r.value| + |r.rest| == old(s.End()) && s.bytesLeft == |r.rest| &&
                    s.buf[s.state + |r.value|..old(s.End())] == r.rest)
  {
    hide DecodeVarint32;
    sub := new IStream.FromBuffer(s.buf, 0, 0);
    var size;
    ok, size := ReadVarint32(s);
    if !ok { return; }
    if s.bytesLeft < size {
      // "parent stream too short"
      return false, sub;
    }
    s.RestSplit(size);
    sub := new IStream.FromBuffer(s.buf, s.state, size);
    s.bytesLeft := s.bytesLeft - size;
  }

  /** `pb_close_string_substream`: skip what the substream has left and move the parent past it. */
  method CloseSubstream(s: IStream, sub: IStream)
    requires s != sub && s.buf == sub.buf && sub.Valid() && sub.End() + s.bytesLeft <= s.buf.Length
    modifies s, sub
    ensures s.Valid() && s.bytesLeft == old(s.bytesLeft) && s.state == old(sub.End())
  {
    if sub.bytesLeft > 0 {
      var ok := sub.Discard(sub.bytesLeft);
    }
    s.state := sub.state;
  }
}
