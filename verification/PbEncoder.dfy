/**
The message encoder of `pb_encode.c`, writing to a stream. Every method is proved to write exactly
what `PbEncodeSpec` says for its argument, or to fail exactly when that is undefined or does not
fit. Submessages are encoded twice, once to measure and once to write.
*/
module PbEncoder {
  import opened Bytes
  import opened PbWire
  import opened PbDescriptor
  import opened PbEncodeSpec
  import opened PbIterator
  import opened PbOStream

  // ---- no size in memory reaches 2^64 ----

  predicate SizedValue(f: Field, v: Value)
    requires StoredValue(f, v)
    decreases f, 0
  {
    f.ltype.LSubmessage? ==>
      SizedFrom(f.sub, 0, v.slots) && Size(EncodeFrom(f.sub, 0, v.slots)) < U64
  }

  predicate SizedSlot(f: Field, slot: Slot)
    requires StoredSlot(f, slot)
    decreases f, 1
  {
    match slot
    case Plain(v) => SizedValue(f, v)
    case Flagged(_, v) => SizedValue(f, v)
    case Many(items) => forall x :: x in items ==> SizedValue(f, x)
    case Union(which, v) => which == f.tag ==> SizedValue(f, v)
    case Shared => true
  }

  /** Every submessage of `msg`, from field `i` on, encodes to less than 2^64 bytes. */
  predicate SizedFrom(fields: seq<Field>, i: nat, msg: Message)
    requires i <= |fields| && Stored(fields, msg)
    decreases fields, 2, |fields| - i
  {
    i < |fields| ==>
      assert StoredAt(fields, msg, i);
      SizedSlot(fields[i], msg[Leader(fields, i)]) && SizedFrom(fields, i + 1, msg)
  }

  predicate StoredItems(f: Field, items: seq<Value>)
  {
    forall x :: x in items ==> StoredValue(f, x)
  }

  predicate SizedItems(f: Field, items: seq<Value>)
    requires StoredItems(f, items)
  {
    forall x :: x in items ==> SizedValue(f, x)
  }

  /** A packed number takes at most ten bytes. */
  lemma {:induction false} PackedSize(f: Field, items: seq<Value>)
    requires Packable(f.ltype) && StoredItems(f, items)
    ensures Size(EncodePacked(f, items)) <= 10 * |items|
    ensures f.ltype.LFixed32? ==> EncodePacked(f, items).Bytes? && Size(EncodePacked(f, items)) == 4 * |items|
    ensures f.ltype.LFixed64? ==> EncodePacked(f, items).Bytes? && Size(EncodePacked(f, items)) == 8 * |items|
    decreases |items|
  {
    hide EncodeValue, StoredValue;
    if items != [] {
      NumberSize(f, items[0]);
      PackedSize(f, items[1..]);
    }
  }

  lemma NumberSize(f: Field, v: Value)
    requires Packable(f.ltype) && StoredValue(f, v)
    ensures Size(EncodeValue(f, v)) <= 10
    ensures f.ltype.LFixed32? ==> EncodeValue(f, v).Bytes? && Size(EncodeValue(f, v)) == 4
    ensures f.ltype.LFixed64? ==> EncodeValue(f, v).Bytes? && Size(EncodeValue(f, v)) == 8
  {
    if f.ltype.LVarint? {
      VarintFits(ToUnsigned64(v.n));
    } else if f.ltype.LUVarint? {
      VarintFits(v.n);
    } else if f.ltype.LSVarint? {
      ZigzagRoundTrip(v.n);
      VarintFits(Zigzag(v.n));
    }
  }

  // ---- values ----

  /** The text of a buffer ends at the first NUL, or with the buffer. */
  lemma StringBytesEnd(b: seq<Byte>, n: nat)
    requires n <= |b| && (forall k :: 0 <= k < n ==> b[k] != 0) && (n == |b| || b[n] == 0)
    ensures StringBytes(b) == b[..n]
  {
    var t := StringBytes(b);
    if |t| > n { assert false; }
  }

  /** `pb_enc_string`: the length of the text is found by looking for its terminator. */
  method StringLength(b: seq<Byte>, maxSize: nat) returns (size: nat)
    requires |b| <= maxSize && (0 in b || |b| == maxSize)
    ensures size <= |b| && b[..size] == StringBytes(b)
  {
    size := 0;
    while size < maxSize && b[size] != 0
      invariant size <= |b|
      invariant forall k :: 0 <= k < size ==> b[k] != 0
      invariant size == |b| ==> |b| == maxSize
      decreases maxSize - size
    {
      size := size + 1;
      assert size == |b| ==> 0 !in b;
    }
    StringBytesEnd(b, size);
  }

  /** The `pb_enc_*` function of the field type. */
  method EncValue(s: OStream, f: Field, v: Value) returns (ok: bool)
    requires s.Valid() && WellFormedField(f) && StoredValue(f, v) && SizedValue(f, v)
    modifies s, s.buf
    ensures Wrote(s, EncodeValue(f, v), ok)
    decreases f, 0
  {
    match f.ltype
    case LVarint =>
      if !ValidIntSize(f.dataSize) { return false; }
      ok := EncodeVarint(s, ToUnsigned64(v.n));
    case LUVarint =>
      if !ValidIntSize(f.dataSize) { return false; }
      ok := EncodeVarint(s, v.n);
    case LSVarint =>
      if !ValidIntSize(f.dataSize) { return false; }
      ZigzagRoundTrip(v.n);
      ok := EncodeSVarint(s, v.n);
    case LFixed32 => ok := EncodeFixed32(s, v.n);
    case LFixed64 => ok := EncodeFixed64(s, v.n);
    case LBytes =>
      if |v.b| + BYTES_HEADER > f.dataSize { return false; }
      ok := EncodeString(s, v.b);
    case LString =>
      var size := StringLength(v.b, f.dataSize);
      ok := EncodeString(s, v.b[..size]);
    case LFixedLengthBytes => ok := EncodeString(s, v.b);
    case LSubmessage => ok := EncodeSubmessage(s, f.sub, v.slots);
  }

  // ---- arrays ----

  /** The loop of `encode_array` over packed items, on a sizing stream or a writing one. */
  method EncodeItems(s: OStream, f: Field, items: seq<Value>) returns (ok: bool)
    requires s.Valid() && WellFormedField(f) && StoredItems(f, items) && SizedItems(f, items)
    modifies s, s.buf
    ensures Wrote(s, EncodePacked(f, items), ok)
    decreases f, 1
  {
    var i := 0;
    assert items[0..] == items;
    while i < |items|
      invariant 0 <= i <= |items|
      invariant s.Valid() && Progress(old(s.log), s.log, EncodePacked(f, items), EncodePacked(f, items[i..]))
      invariant s.Outside() == old(s.Outside())
    {
      var x := items[i];
      assert items[i..][1..] == items[i + 1..] && x == items[i..][0];
      ghost var before := s.log;
      ok := EncValue(s, f, x);
      if !ok {
        StepFails(old(s.log), before, EncodePacked(f, items), EncodeValue(f, x), EncodePacked(f, items[i + 1..]));
        return;
      }
      Step(old(s.log), before, EncodePacked(f, items), EncodeValue(f, x), EncodePacked(f, items[i + 1..]));
      i := i + 1;
    }
    return true;
  }

  /** The loop of `encode_array` over items that carry their own tags. */
  method EncodeTaggedItems(s: OStream, f: Field, items: seq<Value>) returns (ok: bool)
    requires s.Valid() && WellFormedField(f) && StoredItems(f, items) && SizedItems(f, items)
    modifies s, s.buf
    ensures Wrote(s, EncodeTagged(f, items), ok)
    decreases f, 2
  {
    var i := 0;
    assert items[0..] == items;
    while i < |items|
      invariant 0 <= i <= |items|
      invariant s.Valid() && Progress(old(s.log), s.log, EncodeTagged(f, items), EncodeTagged(f, items[i..]))
      invariant s.Outside() == old(s.Outside())
    {
      var x := items[i];
      assert items[i..][1..] == items[i + 1..] && x == items[i..][0];
      ghost var before := s.log;
      ok := EncTaggedValue(s, f, x);
      if !ok {
        StepFails(old(s.log), before, EncodeTagged(f, items), EncodeTaggedValue(f, x), EncodeTagged(f, items[i + 1..]));
        return;
      }
      Step(old(s.log), before, EncodeTagged(f, items), EncodeTaggedValue(f, x), EncodeTagged(f, items[i + 1..]));
      i := i + 1;
    }
    return true;
  }

  /** A tag and the value behind it. */
  method EncTaggedValue(s: OStream, f: Field, v: Value) returns (ok: bool)
    requires s.Valid() && WellFormedField(f) && StoredValue(f, v) && SizedValue(f, v)
    modifies s, s.buf
    ensures Wrote(s, EncodeTaggedValue(f, v), ok)
    decreases f, 1
  {
    ok := EncodeTagForField(s, f);
    if ok {
      ok := EncValue(s, f, v);
      if ok { Assoc(old(s.log), Tag(WireType(f.ltype), f.tag), EncodeValue(f, v).b); }
    }
  }

  /** The size of a packed array: known for fixed-width items, measured otherwise. */
  method PackedSizeOf(f: Field, items: seq<Value>) returns (ok: bool, size: nat)
    requires WellFormedField(f) && Packable(f.ltype) && StoredItems(f, items) && SizedItems(f, items)
    ensures ok <==> EncodePacked(f, items).Bytes?
    ensures ok ==> size == |EncodePacked(f, items).b|
    decreases f, 2
  {
    PackedSize(f, items);
    if f.ltype.LFixed32? {
      return true, 4 * |items|;
    } else if f.ltype.LFixed64? {
      return true, 8 * |items|;
    }
    var sizestream := new OStream.Sizing();
    ok := EncodeItems(sizestream, f, items);
    size := sizestream.bytesWritten;
  }

  /** `encode_array`. */
  method EncArray(s: OStream, f: Field, items: seq<Value>) returns (ok: bool)
    requires s.Valid() && WellFormedField(f) && StoredItems(f, items) && SizedItems(f, items)
    modifies s, s.buf
    ensures Wrote(s, EncodeArray(f, items), ok)
    decreases f, 4
  {
    if |items| == 0 {
      assert s.log == s.log + [];
      return true;
    }
    if |items| > f.arraySize {
      return false;
    }
    if Packable(f.ltype) {
      ok := EncPackedArray(s, f, items);
    } else {
      ok := EncodeTaggedItems(s, f, items);
    }
  }

  /** The packed half of `encode_array`. */
  method EncPackedArray(s: OStream, f: Field, items: seq<Value>) returns (ok: bool)
    requires s.Valid() && WellFormedField(f) && StoredItems(f, items) && SizedItems(f, items)
    requires 0 < |items| <= f.arraySize && Packable(f.ltype)
    modifies s, s.buf
    ensures Wrote(s, EncodeArray(f, items), ok)
    decreases f, 3
  {
    var tag := Tag(WT_STRING, f.tag);
    ok := EncodeTag(s, WT_STRING, f.tag);
    if !ok { return; }
    var size;
    ok, size := PackedSizeOf(f, items);
    if !ok { return; }
    ghost var e := EncodePacked(f, items).b;
    PackedSize(f, items);
    ok := EncodeVarint(s, size);
    if !ok { return; }
    if !s.writing {
      ok := s.Count(size, e);
    } else {
      ok := EncodeItems(s, f, items);
    }
    if ok { ThreeParts(old(s.log), tag, Varint(size), e); }
  }

  lemma ThreeParts(a: seq<Byte>, b: seq<Byte>, c: seq<Byte>, d: seq<Byte>)
    ensures ((a + b) + c) + d == a + (b + (c + d))
  {
  }

  // ---- presence ----

  /** `pb_check_proto3_default_value`. */
  method CheckProto3DefaultValue(f: Field, slot: Slot) returns (zero: bool)
    requires WellFormedField(f) && StoredSlot(f, slot)
    ensures zero <==> IsZeroSlot(f, slot)
    decreases f, 0
  {
    if f.htype.Required? {
      return false;
    } else if f.htype.Repeated? {
      return |slot.items| == 0;
    } else if f.htype.OneOf? {
      return slot.which == 0;
    } else if f.sizeOffset != 0 {
      return !slot.has;
    }
    match f.ltype
    case LBytes => return |slot.v.b| == 0;
    case LString =>
      // *pData is read even when the buffer has no bytes
      return |slot.v.b| == 0 || slot.v.b[0] == 0;
    case LFixedLengthBytes => return f.dataSize == 0;
    case LSubmessage => zero := AllProto3Defaults(f.sub, slot.v.slots);
    case _ =>
      var p := LittleEndian(ToUnsigned64(slot.v.n), f.dataSize);
      for i := 0 to f.dataSize
        invariant AllZero(p[..i])
      {
        if p[i] != 0 {
          return false;
        }
      }
      assert p[..f.dataSize] == p;
      return true;
  }

  /** The walk over the fields of a submessage in `pb_check_proto3_default_value`. */
  method AllProto3Defaults(fields: seq<Field>, msg: Message) returns (zero: bool)
    requires WellFormed(fields) && Stored(fields, msg)
    ensures zero <==> IsZeroMessage(fields, msg)
    decreases fields, 1
  {
    var iter := new FieldIter(fields);
    if fields == [] {
      return true;
    }
    var more := true;
    while more
      invariant iter.Valid() && iter.fields == fields
      invariant more ==> forall j :: 0 <= j < iter.pos ==> IsZeroAt(fields, msg, j)
      invariant !more ==> IsZeroMessage(fields, msg)
      decreases more, |fields| - iter.pos
    {
      ghost var i := iter.pos;
      assert StoredAt(fields, msg, i);
      var z := CheckProto3DefaultValue(fields[iter.pos], msg[iter.slot]);
      if !z {
        assert !IsZeroAt(fields, msg, i);
        return false;
      }
      assert IsZeroAt(fields, msg, i);
      more := iter.Next();
    }
    return true;
  }

  // ---- fields and messages ----

  /** `encode_basic_field`. */
  method EncodeBasicField(s: OStream, f: Field, slot: Slot) returns (ok: bool)
    requires s.Valid() && WellFormedField(f) && StoredSlot(f, slot) && SizedSlot(f, slot)
    modifies s, s.buf
    ensures Wrote(s, EncodeSlot(f, slot), ok)
    decreases f, 5
  {
    if f.htype.Repeated? {
      ok := EncArray(s, f, slot.items);
      return;
    }
    var present := true;
    if f.htype.OneOf? {
      present := slot.which == f.tag;
    } else if f.htype.Optional? {
      if f.sizeOffset != 0 {
        present := slot.has;
      } else {
        var zero := CheckProto3DefaultValue(f, slot);
        present := !zero;
      }
    }
    if present {
      ok := EncTaggedValue(s, f, slot.v);
    } else {
      assert s.log == s.log + [];
      ok := true;
    }
  }

  function FieldSpec(fields: seq<Field>, i: nat, msg: Message): Encoded
    requires i < |fields| && Stored(fields, msg)
  {
    assert StoredAt(fields, msg, i);
    EncodeSlot(fields[i], msg[Leader(fields, i)])
  }

  /** `encode_field` on the field the iterator stands at. */
  method EncField(s: OStream, iter: FieldIter, msg: Message) returns (ok: bool)
    requires s.Valid() && iter.Valid() && iter.pos < |iter.fields|
    requires WellFormed(iter.fields) && Stored(iter.fields, msg) && SizedFrom(iter.fields, iter.pos, msg)
    modifies s, s.buf
    ensures Wrote(s, FieldSpec(iter.fields, iter.pos, msg), ok)
    decreases iter.fields, 5
  {
    assert StoredAt(iter.fields, msg, iter.pos);
    ok := EncodeBasicField(s, iter.fields[iter.pos], msg[iter.slot]);
  }

  /** One turn of the loop of `pb_encode`: a field, and on to the next one. */
  method EncodeTurn(s: OStream, iter: FieldIter, msg: Message, ghost base: seq<Byte>, ghost total: Encoded)
    returns (ok: bool, more: bool)
    requires s.Valid() && iter.Valid() && iter.pos < |iter.fields|
    requires WellFormed(iter.fields) && Stored(iter.fields, msg) && SizedFrom(iter.fields, iter.pos, msg)
    requires Progress(base, s.log, total, EncodeFrom(iter.fields, iter.pos, msg))
    modifies s, s.buf, iter
    ensures s.Valid() && s.Outside() == old(s.Outside()) && iter.Valid()
    ensures more == (old(iter.pos) + 1 < |iter.fields|) && (more ==> iter.pos == old(iter.pos) + 1)
    ensures ok ==> SizedFrom(iter.fields, old(iter.pos) + 1, msg)
    ensures ok ==> Progress(base, s.log, total, EncodeFrom(iter.fields, old(iter.pos) + 1, msg))
    ensures !ok ==> total.Failed? || (s.writing && |base| + |total.b| > s.maxSize)
    decreases iter.fields, 6
  {
    ghost var fields, i, before := iter.fields, iter.pos, s.log;
    ok := EncField(s, iter, msg);
    more := iter.Next();
    TurnDone(fields, i, msg, base, before, total);
  }

  /** What one field does to the progress through a message. */
  lemma TurnDone(fields: seq<Field>, i: nat, msg: Message, base: seq<Byte>, before: seq<Byte>, total: Encoded)
    requires i < |fields| && Stored(fields, msg) && SizedFrom(fields, i, msg)
    requires Progress(base, before, total, EncodeFrom(fields, i, msg))
    ensures SizedFrom(fields, i + 1, msg)
    ensures var e := FieldSpec(fields, i, msg);
            (e.Bytes? ==> Progress(base, before + e.b, total, EncodeFrom(fields, i + 1, msg))) &&
            (total.Bytes? ==> e.Bytes? && |before| + |e.b| <= |base| + |total.b|)
  {
    var e, rest := FieldSpec(fields, i, msg), EncodeFrom(fields, i + 1, msg);
    StepFails(base, before, total, e, rest);
    if e.Bytes? { Step(base, before, total, e, rest); }
  }

  /** `pb_encode`. */
  method PbEncode(s: OStream, fields: seq<Field>, msg: Message) returns (ok: bool)
    requires s.Valid() && WellFormed(fields) && Stored(fields, msg) && SizedFrom(fields, 0, msg)
    modifies s, s.buf
    ensures Wrote(s, Encode(fields, msg), ok)
    decreases fields, 7
  {
    hide WellFormed, Stored, SizedFrom, EncodeSlot, Varint;
    var iter := new FieldIter(fields);
    if fields == [] {
      assert s.log == s.log + [];
      return true;
    }
    ghost var i, total := 0, Encode(fields, msg);
    var more := true;
    while more
      invariant iter.Valid() && iter.fields == fields && (if more then iter.pos == i < |fields| else i == |fields|)
      invariant s.Valid() && s.Outside() == old(s.Outside())
      invariant SizedFrom(fields, i, msg) && Progress(old(s.log), s.log, total, EncodeFrom(fields, i, msg))
      decreases |fields| - i
    {
      ok, more := EncodeTurn(s, iter, msg, old(s.log), total);
      if !ok { return; }
      i := i + 1;
    }
    return true;
  }

  /**
  `pb_encode_submessage`: measure, write the length, write the message into a substream of exactly
  that size. The second pass cannot disagree with the first, so "submsg size changed" never occurs.
  */
  method EncodeSubmessage(s: OStream, fields: seq<Field>, msg: Message) returns (ok: bool)
    requires s.Valid() && WellFormed(fields) && Stored(fields, msg)
    requires SizedFrom(fields, 0, msg) && Size(Encode(fields, msg)) < U64
    modifies s, s.buf
    ensures Wrote(s, var e := Encode(fields, msg); if e.Bytes? then Bytes(Delimited(e.b)) else Failed, ok)
    decreases fields, 9
  {
    var sizing := new OStream.Sizing();
    ok := PbEncode(sizing, fields, msg);
    if !ok { return; }
    var size := sizing.bytesWritten;
    ghost var e := Encode(fields, msg).b;
    assert sizing.log == e;
    ok := EncodeVarint(s, size);
    if !ok { return; }
    if !s.writing {
      ok := s.Count(size, e);
      Assoc(old(s.log), Varint(size), e);
      return;
    }
    ok := WriteSubmessage(s, fields, msg, size);
    if ok { Assoc(old(s.log), Varint(size), e); }
  }

  /** The second pass, into a substream of exactly `size` bytes. */
  method WriteSubmessage(s: OStream, fields: seq<Field>, msg: Message, size: nat) returns (ok: bool)
    requires s.Valid() && s.writing && WellFormed(fields) && Stored(fields, msg) && SizedFrom(fields, 0, msg)
    requires Encode(fields, msg).Bytes? && size == |Encode(fields, msg).b|
    modifies s, s.buf
    ensures Wrote(s, Encode(fields, msg), ok)
    decreases fields, 8
  {
    if s.bytesWritten + size > s.maxSize {
      return false;
    }
    ghost var e, before := Encode(fields, msg).b, s.buf[..];
    var substream := new OStream.FromBuffer(s.buf, s.state, size);
    var status := PbEncode(substream, fields, msg);
    ok := s.Rejoin(substream, size, before);
    return ok && status;
  }

  /** `pb_get_encoded_size`: the number of bytes `pb_encode` writes. */
  method GetEncodedSize(fields: seq<Field>, msg: Message) returns (ok: bool, size: nat)
    requires WellFormed(fields) && Stored(fields, msg) && SizedFrom(fields, 0, msg)
    ensures ok <==> Encode(fields, msg).Bytes?
    ensures ok ==> size == |Encode(fields, msg).b|
  {
    var stream := new OStream.Sizing();
    ok := PbEncode(stream, fields, msg);
    size := stream.bytesWritten;
  }

  /** Encoding into `n` bytes succeeds exactly when `n` is at least the measured size. */
  method EncodeToBuffer(buf: array<Byte>, n: nat, fields: seq<Field>, msg: Message) returns (ok: bool, written: nat)
    requires n <= buf.Length && WellFormed(fields) && Stored(fields, msg) && SizedFrom(fields, 0, msg)
    modifies buf
    ensures ok <==> Encode(fields, msg).Bytes? && |Encode(fields, msg).b| <= n
    ensures ok ==> written <= n && buf[..written] == Encode(fields, msg).b
    ensures buf[n..] == old(buf[n..])
  {
    var stream := new OStream.FromBuffer(buf, 0, n);
    ok := PbEncode(stream, fields, msg);
    written := stream.bytesWritten;
  }
}
