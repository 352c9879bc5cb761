/**
What `pb_encode` writes for a message, as a byte string: the reference the stream encoder is
proved against and the decoder is run on.
*/
module PbEncodeSpec {
  import opened Bytes
  import opened PbWire
  import opened PbDescriptor

  datatype Encoded = Bytes(b: seq<Byte>) | Failed

  // Wire types.
  const WT_VARINT: nat := 0
  const WT_64BIT: nat := 1
  const WT_STRING: nat := 2
  const WT_32BIT: nat := 5

  function WireType(t: LType): (w: nat)
    ensures w < 8
  {
    match t
    case LVarint | LUVarint | LSVarint => WT_VARINT
    case LFixed32 => WT_32BIT
    case LFixed64 => WT_64BIT
    case LBytes | LString | LSubmessage | LFixedLengthBytes => WT_STRING
  }

  /** `((uint64_t)field_number << 3) | wiretype` as a varint. */
  function Tag(wiretype: nat, tag: nat): seq<Byte>
    requires wiretype < 8
  {
    Varint(8 * tag + wiretype)
  }

  function Then(a: Encoded, b: Encoded): Encoded
  {
    if a.Failed? || b.Failed? then Failed else Bytes(a.b + b.b)
  }

  /** A length prefix and the bytes it counts. */
  function Delimited(b: seq<Byte>): seq<Byte> { Varint(|b|) + b }

  /** The payload of one value: what the `pb_enc_*` function of the field type writes. */
  function EncodeValue(f: Field, v: Value): (e: Encoded)
    requires StoredValue(f, v)
    ensures e.Bytes? ==> |e.b| > 0
    decreases f, 0
  {
    match f.ltype
    case LVarint =>
      if ValidIntSize(f.dataSize) then Bytes(Varint(ToUnsigned64(v.n))) else Failed
    case LUVarint => if ValidIntSize(f.dataSize) then Bytes(Varint(v.n)) else Failed
    case LSVarint =>
      if ValidIntSize(f.dataSize) then ZigzagRoundTrip(v.n); Bytes(Varint(Zigzag(v.n))) else Failed
    case LFixed32 => Bytes(LittleEndian(v.n, 4))
    case LFixed64 => Bytes(LittleEndian(v.n, 8))
    case LBytes => if |v.b| + BYTES_HEADER > f.dataSize then Failed else Bytes(Delimited(v.b))
    case LString => Bytes(Delimited(StringBytes(v.b)))
    case LFixedLengthBytes => Bytes(Delimited(v.b))
    case LSubmessage =>
      var e := EncodeFrom(f.sub, 0, v.slots);
      if e.Failed? then Failed else Bytes(Delimited(e.b))
  }

  /** The items of an array one after another, without tags. */
  function EncodePacked(f: Field, items: seq<Value>): Encoded
    requires forall x :: x in items ==> StoredValue(f, x)
    decreases f, 1, |items|
  {
    if items == [] then Bytes([])
    else Then(EncodeValue(f, items[0]), EncodePacked(f, items[1..]))
  }

  /** The items of an array, each behind its own tag. */
  function EncodeTagged(f: Field, items: seq<Value>): Encoded
    requires forall x :: x in items ==> StoredValue(f, x)
    decreases f, 2, |items|
  {
    if items == [] then Bytes([])
    else Then(EncodeTaggedValue(f, items[0]), EncodeTagged(f, items[1..]))
  }

  function EncodeTaggedValue(f: Field, v: Value): Encoded
    requires StoredValue(f, v)
    decreases f, 1, 0
  {
    Then(Bytes(Tag(WireType(f.ltype), f.tag)), EncodeValue(f, v))
  }

  /** `encode_array`: numbers are always packed. */
  function EncodeArray(f: Field, items: seq<Value>): Encoded
    requires forall x :: x in items ==> StoredValue(f, x)
    decreases f, 3
  {
    if items == [] then Bytes([])
    else if |items| > f.arraySize then Failed
    else if Packable(f.ltype) then
      var e := EncodePacked(f, items);
      if e.Failed? then Failed else Bytes(Tag(WT_STRING, f.tag) + Delimited(e.b))
    else EncodeTagged(f, items)
  }

  /** `encode_basic_field`. */
  function EncodeSlot(f: Field, slot: Slot): Encoded
    requires StoredSlot(f, slot)
    decreases f, 4
  {
    if !Emits(f, slot) then Bytes([])
    else if f.htype.Repeated? then EncodeArray(f, slot.items)
    else EncodeTaggedValue(f, slot.v)
  }

  /** The fields from position `i` to the end of the descriptor. */
  function EncodeFrom(fields: seq<Field>, i: nat, msg: Message): Encoded
    requires i <= |fields| && Stored(fields, msg)
    decreases fields, 5, |fields| - i
  {
    if i == |fields| then Bytes([])
    else
      assert StoredAt(fields, msg, i);
      Then(EncodeSlot(fields[i], msg[Leader(fields, i)]), EncodeFrom(fields, i + 1, msg))
  }

  function Encode(fields: seq<Field>, msg: Message): Encoded
    requires Stored(fields, msg)
  {
    EncodeFrom(fields, 0, msg)
  }
}
