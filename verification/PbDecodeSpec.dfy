/**
What the nanopb decoder makes of a byte string, following `pb_decode_noinit`, `decode_static_field`
and the `pb_dec_*` functions branch by branch.

The state of the main loop is the message built so far and the set of required fields seen (by
`required_field_index`, up to 64). A loop that stops at a zero key leaves the bytes after it unread.
*/
module PbDecodeSpec {
  import opened Bytes
  import opened PbWire
  import opened PbDescriptor
  import PbEncodeSpec

  datatype State = State(msg: Message, seen: set<nat>)

  /**
  The value decoded over. The C struct has the type the descriptor describes, so the slot of a
  required or optional field always holds one; any other kind of slot reads as the default.
  */
  function PrevValue(f: Field, slot: Slot): Value
  {
    if slot.Plain? || slot.Flagged? then slot.v else DefaultValue(f)
  }

  function PrevItems(slot: Slot): seq<Value> { if slot.Many? then slot.items else [] }

  function PrevMessage(f: Field, v: Value): (m: Message)
    ensures |m| == |f.sub|
  {
    if v.Msg? && |v.slots| == |f.sub| then v.slots else Default(f.sub)
  }

  // ---- single values ----

  datatype Key = Key(tag: nat, wiretype: nat) | EndOfMessage

  /** `pb_decode_tag` on a non-empty stream. */
  function DecodeTag(s: seq<Byte>): (r: Parse<Key>)
    ensures r.Ok? ==> |r.rest| < |s|
  {
    match DecodeVarint32(s)
    case Err => Err
    case Ok(temp, rest) => Ok(if temp == 0 then EndOfMessage else Key(temp / 8, temp % 8), rest)
  }

  /** `pb_dec_varint` after the varint is read: fields of up to 32 bits go through `int32_t`. */
  function ClampSigned(size: nat, value: int): Option<int>
    requires 0 <= value < U64
  {
    if !ValidIntSize(size) then None
    else if size == 8 then Some(ToSigned64(value))
    else
      var svalue := ToSigned32(value);
      if FitsSigned(size, svalue) then Some(svalue) else None
  }

  predicate FitsSigned(size: nat, n: int)
  {
    (size == 1 ==> -0x80 <= n < 0x80) && (size == 2 ==> -0x8000 <= n < 0x8000) &&
    (size == 4 ==> -(U32 / 2) <= n < U32 / 2)
  }

  function ClampUnsigned(size: nat, value: int): Option<int>
  {
    if !ValidIntSize(size) then None
    else if (size == 1 && value >= 0x100) || (size == 2 && value >= U16) || (size == 4 && value >= U32) then None
    else Some(value)
  }

  function ClampZigzag(size: nat, value: int): Option<int>
  {
    if ValidIntSize(size) && FitsSigned(size, Unzigzag(value)) then Some(Unzigzag(value)) else None
  }

  function AsNum(n: Option<int>, rest: seq<Byte>): Parse<Value>
  {
    if n.None? then Err else Ok(Num(n.value), rest)
  }

  /** A length prefix and that many bytes, or an error. */
  function DecodeDelimited(s: seq<Byte>): (r: Parse<seq<Byte>>)
    ensures r.Ok? ==> |r.rest| < |s|
  {
    match DecodeVarint32(s)
    case Err => Err
    case Ok(size, rest) => Take(rest, size)
  }

  lemma {:induction false} Varint64Range(s: seq<Byte>, bitpos: nat, result: nat)
    requires result < U64
    ensures var r := Varint64Loop(s, bitpos, result); r.Ok? ==> r.value < U64
    decreases |s|
  {
    if bitpos < 64 && s != [] {
      WordSizes();
      var sh := Bits.Shl(s[0] % 128, bitpos, 64);
      Bits.OrBound(result, sh, 64);
      Varint64Range(s[1..], bitpos + 7, Bits.Or(result, sh));
    }
  }

  function Varint64Value(s: seq<Byte>): (r: Parse<nat>)
    ensures r == DecodeVarint64(s)
    ensures r.Ok? ==> r.value < U64 && |r.rest| < |s|
  {
    Varint64Range(s, 0, 0);
    DecodeVarint64(s)
  }

  /** The `pb_dec_*` function of the field type, decoding over the previous value `prev`. */
  function DecodeValue(f: Field, prev: Value, s: seq<Byte>): (r: Parse<Value>)
    ensures r.Ok? ==> |r.rest| < |s|
    decreases f, 0
  {
    match f.ltype
    case LVarint =>
      (match Varint64Value(s)
       case Err => Err
       case Ok(value, rest) => AsNum(ClampSigned(f.dataSize, value), rest))
    case LUVarint =>
      (match Varint64Value(s)
       case Err => Err
       case Ok(value, rest) => AsNum(ClampUnsigned(f.dataSize, value), rest))
    case LSVarint =>
      (match Varint64Value(s)
       case Err => Err
       case Ok(value, rest) => AsNum(ClampZigzag(f.dataSize, value), rest))
    case LFixed32 =>
      (match Take(s, 4) case Err => Err case Ok(b, rest) => Ok(Num(FromLittleEndian(b)), rest))
    case LFixed64 =>
      (match Take(s, 8) case Err => Err case Ok(b, rest) => Ok(Num(FromLittleEndian(b)), rest))
    case LBytes =>
      (match DecodeVarint32(s)
       case Err => Err
       case Ok(size, rest) =>
         if size > SIZE_MAX || size + BYTES_HEADER > f.dataSize || |rest| < size then Err
         else Ok(Blob(rest[..size]), rest[size..]))
    case LString =>
      (match DecodeVarint32(s)
       case Err => Err
       case Ok(size, rest) =>
         // size + 1 is computed in 32 bits
         var alloc := (size + 1) % U32;
         if alloc < size || alloc > f.dataSize || |rest| < size then Err
         else Ok(Blob(rest[..size] + [0]), rest[size..]))
    case LFixedLengthBytes =>
      (match DecodeVarint32(s)
       case Err => Err
       case Ok(size, rest) =>
         if size > SIZE_MAX then Err
         else if size == 0 then Ok(Blob(Zeros(f.dataSize)), rest)
         else if size != f.dataSize || |rest| < size then Err
         else Ok(Blob(rest[..size]), rest[size..]))
    case LSubmessage =>
      (match DecodeDelimited(s)
       case Err => Err
       case Ok(body, rest) =>
         match DecodeInto(f.sub, if f.htype.Repeated? then Default(f.sub) else PrevMessage(f, prev), body)
         case Err => Err
         case Ok(m, _) => Ok(Msg(m), rest))
  }

  /** The packed-array loop on the substream `s`: it must end with the bytes, not with the array. */
  function DecodePacked(f: Field, items: seq<Value>, s: seq<Byte>): (r: Parse<seq<Value>>)
    requires Packable(f.ltype)
    ensures r.Ok? ==> r.rest == []
    decreases f, 1, |s|
  {
    if s == [] then Ok(items, [])
    else if |items| >= f.arraySize then Err
    else match DecodeValue(f, Num(0), s)
      case Err => Err
      case Ok(v, rest) => DecodePacked(f, items + [v], rest)
  }

  /** `decode_static_field`. */
  function DecodeField(f: Field, wiretype: nat, slot: Slot, s: seq<Byte>): (r: Parse<Slot>)
    ensures r.Ok? ==> |r.rest| < |s|
    decreases f, 2
  {
    match f.htype
    case Required =>
      (match DecodeValue(f, PrevValue(f, slot), s) case Err => Err case Ok(v, rest) => Ok(Plain(v), rest))
    case Optional =>
      (match DecodeValue(f, PrevValue(f, slot), s)
       case Err => Err
       case Ok(v, rest) => Ok(if f.sizeOffset != 0 then Flagged(true, v) else Plain(v), rest))
    case Repeated =>
      if wiretype == PbEncodeSpec.WT_STRING && Packable(f.ltype) then
        (match DecodeDelimited(s)
         case Err => Err
         case Ok(body, rest) =>
           match DecodePacked(f, PrevItems(slot), body)
           case Err => Err
           case Ok(items, _) => Ok(Many(items), rest))
      else if |PrevItems(slot)| >= f.arraySize then Err
      else
        (match DecodeValue(f, DefaultValue(f), s)
         case Err => Err
         case Ok(v, rest) => Ok(Many(PrevItems(slot) + [v]), rest))
    case OneOf =>
      (match DecodeValue(f, DefaultValue(f), s)
       case Err => Err
       case Ok(v, rest) => Ok(Union(f.tag, v), rest))
  }

  /** `pb_skip_field`. */
  function SkipField(wiretype: nat, s: seq<Byte>): (r: Parse<()>)
    ensures r.Ok? ==> |r.rest| < |s|
  {
    if wiretype == PbEncodeSpec.WT_VARINT then SkipVarint(s)
    else if wiretype == PbEncodeSpec.WT_64BIT then Skip(s, 8)
    else if wiretype == PbEncodeSpec.WT_STRING then
      (match DecodeVarint32(s) case Err => Err case Ok(size, rest) => Skip(rest, size))
    else if wiretype == PbEncodeSpec.WT_32BIT then Skip(s, 4)
    else Err
  }

  function Skip(s: seq<Byte>, count: nat): Parse<()>
  {
    if |s| < count then Err else Ok((), s[count..])
  }

  // ---- messages ----

  /** Two fields in one slot are members of the same union. */
  lemma {:induction false} SharedLeader(fields: seq<Field>, i: nat, j: nat)
    requires i < |fields| && j < |fields| && i != j && Leader(fields, i) == Leader(fields, j)
    ensures fields[i].htype.OneOf? && fields[j].htype.OneOf?
  {
  }

  /** `fields_seen` after field `i`: only the first 64 required fields have a bit. */
  function MarkSeen(fields: seq<Field>, i: nat, seen: set<nat>): set<nat>
    requires i < |fields|
  {
    if fields[i].htype.Required? && RequiredBefore(fields, i) < MAX_REQUIRED_FIELDS
    then seen + {RequiredBefore(fields, i)} else seen
  }

  /** One turn of the loop for a field of the descriptor. */
  function DecodeKnown(fields: seq<Field>, i: nat, wiretype: nat, st: State, s: seq<Byte>): (r: Parse<State>)
    requires i < |fields| == |st.msg|
    ensures r.Ok? ==> |r.rest| < |s| && |r.value.msg| == |fields|
    decreases fields, 3
  {
    var k := Leader(fields, i);
    match DecodeField(fields[i], wiretype, st.msg[k], s)
    case Err => Err
    case Ok(slot, rest) =>
      Ok(State(st.msg[k := slot], MarkSeen(fields, i, st.seen)), rest)
  }

  /** `More`: a field was consumed. `Stop`: a zero key was. `Bad`: the call fails. */
  datatype Turn = More(st: State, rest: seq<Byte>) | Stop(rest: seq<Byte>) | Bad

  /** The rest of a turn of the loop once the key has been read. */
  function DecodeKeyed(fields: seq<Field>, tag: nat, wiretype: nat, st: State, s: seq<Byte>): (r: Turn)
    requires |st.msg| == |fields|
    ensures r.More? ==> |r.rest| < |s| && |r.st.msg| == |fields|
    ensures !r.Stop?
    decreases fields, 4
  {
    var i := IndexOf(fields, tag);
    if i < |fields| then
      (match DecodeKnown(fields, i, wiretype, st, s)
       case Err => Bad
       case Ok(st', rest) => More(st', rest))
    // a descriptor without fields matches tag 0 against its terminator, a required
    // integer of size 0, and fails there
    else if fields == [] && tag == 0 then Bad
    else
      (match SkipField(wiretype, s) case Err => Bad case Ok(_, rest) => More(st, rest))
  }

  /** One turn of the loop of `pb_decode_noinit`, on a stream with bytes left. */
  function DecodeTurn(fields: seq<Field>, st: State, s: seq<Byte>): (r: Turn)
    requires |st.msg| == |fields|
    ensures r.More? ==> |r.rest| < |s| && |r.st.msg| == |fields|
    ensures r.Stop? ==> |r.rest| < |s|
    decreases fields, 5
  {
    match DecodeTag(s)
    case Err => Bad
    case Ok(key, rest) =>
      if key.EndOfMessage? then Stop(rest) else DecodeKeyed(fields, key.tag, key.wiretype, st, rest)
  }

  /** The `while (stream->bytes_left)` loop of `pb_decode_noinit`. */
  function DecodeLoop(fields: seq<Field>, st: State, s: seq<Byte>): (r: Parse<State>)
    requires |st.msg| == |fields|
    ensures r.Ok? ==> |r.rest| <= |s| && |r.value.msg| == |fields|
    decreases fields, 6, |s|
  {
    if s == [] then Ok(st, [])
    else match DecodeTurn(fields, st, s)
      case Bad => Err
      case Stop(rest) => Ok(st, rest)
      case More(st', rest) => DecodeLoop(fields, st', rest)
  }

  /** The check of `fields_seen` after the loop. */
  predicate AllRequiredSeen(fields: seq<Field>, seen: set<nat>)
  {
    forall k: nat :: k < RequiredBefore(fields, |fields|) && k < MAX_REQUIRED_FIELDS ==> k in seen
  }

  /** `pb_decode_noinit` over an existing struct. */
  function DecodeInto(fields: seq<Field>, msg: Message, s: seq<Byte>): (r: Parse<Message>)
    requires |msg| == |fields|
    ensures r.Ok? ==> |r.rest| <= |s| && |r.value| == |fields|
    decreases fields, 7
  {
    match DecodeLoop(fields, State(msg, {}), s)
    case Err => Err
    case Ok(st, rest) => if AllRequiredSeen(fields, st.seen) then Ok(st.msg, rest) else Err
  }

  /** `pb_decode`. */
  function Decode(fields: seq<Field>, s: seq<Byte>): (r: Parse<Message>)
    ensures r.Ok? ==> |r.rest| <= |s| && |r.value| == |fields|
  {
    DecodeInto(fields, Default(fields), s)
  }
}
