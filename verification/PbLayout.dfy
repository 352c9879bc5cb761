/**
What the bytes that nanopb writes are, told group by group and byte by byte as the Protocol Buffers encoding
defines them, without the functions that put them together.
*/
module PbLayout {
  import opened Bits
  import opened Bytes
  import opened PbDecodeSpec
  import opened PbDescriptor
  import opened PbEncodeSpec
  import opened PbMerge
  import opened PbOStream
  import opened PbWire
  import PbSame

  // ---- varints ----

  /** The number in seven-bit groups, the least significant group first. */
  function GroupsValue(b: seq<Byte>): nat
  {
    if b == [] then 0 else b[0] % 128 + 128 * GroupsValue(b[1..])
  }

  /** All bytes but the last are marked as continued, and there are no more of them than needed. */
  predicate IsVarint(b: seq<Byte>, v: nat)
  {
    && b != [] && GroupsValue(b) == v
    && (forall k :: 0 <= k < |b| - 1 ==> b[k] >= 128)
    && b[|b| - 1] < 128 && (|b| > 1 ==> b[|b| - 1] != 0)
  }

  lemma {:induction false} VarintLayout(v: nat)
    ensures IsVarint(Varint(v), v)
  {
    if v >= 128 {
      VarintLayout(v / 128);
      var b, more := Varint(v), Varint(v / 128);
      assert b[1..] == more && b[|b| - 1] == more[|more| - 1];
      forall k | 0 <= k < |b| - 1 ensures b[k] >= 128 {
        if k > 0 { assert b[k] == more[k - 1]; }
      }
    } else {
      assert Varint(v)[1..] == [];
    }
  }

  /** A number has one shortest varint. */
  lemma {:induction false} VarintUnique(b: seq<Byte>, c: seq<Byte>, v: nat)
    requires IsVarint(b, v) && IsVarint(c, v)
    ensures b == c
    decreases |b|
  {
    hide GroupsValue;
    var x, y := GroupsValue(b[1..]), GroupsValue(c[1..]);
    FirstGroup(b);
    FirstGroup(c);
    SameGroups(x, b[0] % 128, y, c[0] % 128);
    if |b| == 1 {
      if |c| > 1 { NotNothing(c[1..]); }
    } else if |c| == 1 {
      NotNothing(b[1..]);
    } else {
      VarintUnique(b[1..], c[1..], x);
      assert b == [b[0]] + b[1..] && c == [c[0]] + c[1..];
    }
  }

  lemma FirstGroup(b: seq<Byte>)
    requires b != []
    ensures GroupsValue(b) == 128 * GroupsValue(b[1..]) + b[0] % 128 && (|b| == 1 ==> GroupsValue(b[1..]) == 0)
  {
    if |b| == 1 { assert b[1..] == []; }
  }

  lemma SameGroups(x: nat, r: nat, y: nat, q: nat)
    requires 128 * x + r == 128 * y + q && r < 128 && q < 128
    ensures x == y && r == q
  {
  }

  /** Groups of which the last is not zero are not the number zero. */
  lemma {:induction false} NotNothing(b: seq<Byte>)
    requires b != [] && 0 < b[|b| - 1] < 128
    ensures GroupsValue(b) > 0
  {
    FirstGroup(b);
    if |b| > 1 { NotNothing(b[1..]); }
  }

  // ---- keys and values ----

  /** Wire types 0, 1, 2 and 5. */
  function TypeNumber(t: LType): nat
  {
    match t
    case LVarint | LUVarint | LSVarint => 0
    case LFixed64 => 1
    case LBytes | LString | LSubmessage | LFixedLengthBytes => 2
    case LFixed32 => 5
  }

  /** A key is the field's number, and behind it in three bits the wire type. */
  lemma KeyLayout(f: Field)
    ensures IsVarint(Tag(WireType(f.ltype), f.tag), 8 * f.tag + TypeNumber(f.ltype))
  {
    hide IsVarint, Varint;
    VarintLayout(8 * f.tag + TypeNumber(f.ltype));
  }

  /** A varint that says how many bytes follow. */
  predicate IsDelimited(b: seq<Byte>, body: seq<Byte>)
  {
    |body| <= |b| && b[|b| - |body|..] == body && IsVarint(b[..|b| - |body|], |body|)
  }

  lemma DelimitedLayout(body: seq<Byte>)
    ensures IsDelimited(Delimited(body), body)
  {
    hide IsVarint, Varint;
    VarintLayout(|body|);
    var b := Delimited(body);
    assert b[..|b| - |body|] == Varint(|body|);
  }

  /** Four bytes of a number, the least significant one first. */
  predicate IsWord(b: seq<Byte>, n: nat)
  {
    && |b| == 4 && b[0] == n % 256 && b[1] == n / 0x100 % 256 && b[2] == n / 0x1_0000 % 256
    && b[3] == n / 0x100_0000 % 256
  }

  /** What the bytes of a value are, for each type of field. */
  predicate IsPayload(f: Field, v: Value, b: seq<Byte>)
    requires StoredValue(f, v)
  {
    match f.ltype
    case LVarint => IsVarint(b, if v.n < 0 then v.n + U64 else v.n)
    case LUVarint => IsVarint(b, v.n)
    case LSVarint => IsVarint(b, if v.n < 0 then -2 * v.n - 1 else 2 * v.n)
    case LFixed32 => IsWord(b, v.n)
    case LFixed64 => |b| == 8 && IsWord(b[..4], v.n % U32) && IsWord(b[4..], v.n / U32)
    case LBytes | LFixedLengthBytes => IsDelimited(b, v.b)
    case LString => IsDelimited(b, if 0 in v.b then v.b[..|StringBytes(v.b)|] else v.b)
    case LSubmessage => Encode(f.sub, v.slots).Bytes? && IsDelimited(b, Encode(f.sub, v.slots).b)
  }

  lemma PayloadLayout(f: Field, v: Value)
    requires StoredValue(f, v)
    ensures EncodeValue(f, v).Bytes? ==> IsPayload(f, v, EncodeValue(f, v).b)
  {
    hide IsVarint, IsDelimited, IsWord, Varint, Delimited, LittleEndian, EncodeFrom, Stored;
    match f.ltype
    case LVarint => VarintLayout(ToUnsigned64(v.n));
    case LUVarint => VarintLayout(v.n);
    case LSVarint => SignedLayout(v.n);
    case LFixed32 => WordLayout(v.n);
    case LFixed64 => DoubleLayout(v.n);
    case LBytes | LFixedLengthBytes => DelimitedLayout(v.b);
    case LString =>
      var text := StringBytes(v.b);
      assert 0 !in v.b ==> text == v.b[..|v.b|] == v.b;
      DelimitedLayout(text);
    case LSubmessage =>
      var e := Encode(f.sub, v.slots);
      if e.Bytes? { DelimitedLayout(e.b); }
  }

  lemma SignedLayout(n: int)
    requires -(U64 / 2) <= n < U64 / 2
    ensures Zigzag(n) >= 0 && IsVarint(Varint(Zigzag(n)), if n < 0 then -2 * n - 1 else 2 * n)
  {
    hide IsVarint, Varint;
    ZigzagRoundTrip(n);
    if n < 0 {
      assert 2 * (n + U64) == U64 + (2 * n + U64);
      assert (2 * (n + U64)) % U64 == 2 * n + U64;
    }
    VarintLayout(Zigzag(n));
  }

  lemma WordLayout(n: nat)
    ensures IsWord(LittleEndian(n, 4), n)
  {
    FourBytes(n);
  }

  lemma DoubleLayout(n: nat)
    ensures var b := LittleEndian(n, 8); IsWord(b[..4], n % U32) && IsWord(b[4..], n / U32)
  {
    EightBytes(n);
    var low, high := LittleEndian(n, 4), LittleEndian(n / U32, 4);
    assert (low + high)[..4] == low && (low + high)[4..] == high;
    WordLayout(n / U32);
    SameWord(n);
  }

  /** The lowest 32 bits decide about the lowest four bytes. */
  lemma SameWord(n: nat)
    ensures IsWord(LittleEndian(n, 4), n % U32)
  {
    hide LittleEndian;
    FourBytes(n);
    var q, r := n / U32, n % U32;
    Quotients(q, r);
    LowByte(0x100_0000 * q, r);
    LowByte(0x1_0000 * q, r / 0x100);
    LowByte(0x100 * q, r / 0x1_0000);
    LowByte(q, r / 0x100_0000);
  }

  lemma Quotients(q: nat, r: nat)
    ensures var n := U32 * q + r;
            && n / 0x100 == 0x100_0000 * q + r / 0x100 && n / 0x1_0000 == 0x1_0000 * q + r / 0x1_0000
            && n / 0x100_0000 == 0x100 * q + r / 0x100_0000
  {
  }

  lemma LowByte(q: nat, r: nat)
    ensures (256 * q + r) % 256 == r % 256
  {
  }

  // ---- fields and messages ----

  /** Something is there: proto3 numbers are not zero, texts and strings of bytes are not empty. */
  predicate InUse(f: Field, slot: Slot)
    requires StoredSlot(f, slot)
    decreases f, 1
  {
    match f.htype
    case Required => true
    case Optional => if f.sizeOffset != 0 then slot.has else NotZero(f, slot.v)
    case Repeated => slot.items != []
    case OneOf => slot.which != 0
  }

  predicate NotZero(f: Field, v: Value)
    requires StoredValue(f, v)
    decreases f, 0
  {
    match f.ltype
    case LSubmessage => !AllIdle(f.sub, v.slots)
    case LBytes => v.b != []
    case LString => v.b != [] && v.b[0] != 0
    case LFixedLengthBytes => f.dataSize != 0
    case _ => v.n != 0
  }

  predicate AllIdle(fields: seq<Field>, msg: Message)
    requires Stored(fields, msg)
    decreases fields, 3
  {
    forall i :: 0 <= i < |fields| ==> Idle(fields, msg, i)
  }

  predicate Idle(fields: seq<Field>, msg: Message, i: nat)
    requires i < |fields| && Stored(fields, msg)
    decreases fields, 2
  {
    assert StoredAt(fields, msg, i);
    !InUse(fields[i], msg[Leader(fields, i)])
  }

  /** What is written: what is in use, and of a union the member that is selected. */
  predicate Written(f: Field, slot: Slot)
    requires StoredSlot(f, slot)
  {
    if f.htype.OneOf? then slot.which == f.tag else InUse(f, slot)
  }

  lemma {:induction false} ZeroIsUnused(f: Field, v: Value)
    requires StoredValue(f, v) && PbSame.RealSize(f)
    ensures IsZeroValue(f, v) <==> !NotZero(f, v)
    decreases f, 0
  {
    match f.ltype
    case LSubmessage => ZeroMessageIsIdle(f.sub, v.slots);
    case LBytes =>
    case LString =>
    case LFixedLengthBytes =>
    case _ =>
      if v.n == 0 { NoBytes(f.dataSize); } else if ZeroBytes(v.n, f.dataSize) { PbSame.NumberZero(f, v.n); }
  }

  lemma {:induction false} ZeroMessageIsIdle(fields: seq<Field>, msg: Message)
    requires Stored(fields, msg) && PbSame.RealSizes(fields)
    ensures IsZeroMessage(fields, msg) <==> AllIdle(fields, msg)
    decreases fields, 3
  {
    forall i | 0 <= i < |fields| ensures IsZeroAt(fields, msg, i) <==> Idle(fields, msg, i) {
      assert StoredAt(fields, msg, i) && PbSame.RealSize(fields[i]);
      ZeroSlotIsUnused(fields[i], msg[Leader(fields, i)]);
    }
    if i :| 0 <= i < |fields| && !IsZeroAt(fields, msg, i) {
      assert !Idle(fields, msg, i);
    } else {
      EveryZero(fields, msg);
    }
  }

  lemma EveryZero(fields: seq<Field>, msg: Message)
    requires |msg| == |fields| && forall i :: 0 <= i < |fields| ==> IsZeroAt(fields, msg, i)
    ensures IsZeroMessage(fields, msg)
  {
  }

  lemma {:induction false} ZeroSlotIsUnused(f: Field, slot: Slot)
    requires StoredSlot(f, slot) && PbSame.RealSize(f)
    ensures IsZeroSlot(f, slot) <==> !InUse(f, slot)
    decreases f, 1
  {
    if f.htype.Optional? && f.sizeOffset == 0 { ZeroIsUnused(f, slot.v); }
  }

  lemma {:induction false} NoBytes(count: nat)
    ensures AllZero(LittleEndian(0, count))
  {
    if count > 0 { NoBytes(count - 1); }
  }

  /** A field that is not written leaves nothing; one that is starts with its key. */
  lemma FieldLayout(f: Field, slot: Slot)
    requires StoredSlot(f, slot) && PbSame.RealSize(f)
    ensures !Written(f, slot) ==> EncodeSlot(f, slot) == Bytes([])
    ensures Written(f, slot) && !f.htype.Repeated? ==>
      EncodeSlot(f, slot) == Then(Bytes(Tag(TypeNumber(f.ltype), f.tag)), EncodeValue(f, slot.v))
  {
    hide EncodeValue, IsZeroValue, NotZero, Tag;
    if f.htype.Optional? && f.sizeOffset == 0 { ZeroIsUnused(f, slot.v); }
  }

  /** Every item of an array has an encoding. */
  predicate Encodes(f: Field, items: seq<Value>)
  {
    forall x :: x in items ==> StoredValue(f, x) && EncodeValue(f, x).Bytes?
  }

  lemma OneMoreEncodes(f: Field, items: seq<Value>)
    requires items != []
    ensures Encodes(f, items) <==>
            StoredValue(f, items[0]) && EncodeValue(f, items[0]).Bytes? && Encodes(f, items[1..])
  {
    hide StoredValue, EncodeValue;
    assert items == [items[0]] + items[1..];
  }

  /** The payloads of the items of an array. */
  function Payloads(f: Field, items: seq<Value>): (p: seq<seq<Byte>>)
    requires Encodes(f, items)
    ensures |p| == |items| && forall i :: 0 <= i < |items| ==> p[i] == EncodeValue(f, items[i]).b
  {
    hide StoredValue, EncodeValue;
    if items == [] then [] else [EncodeValue(f, items[0]).b] + Payloads(f, items[1..])
  }

  /** Each behind its own key. */
  function Keyed(key: seq<Byte>, payloads: seq<seq<Byte>>): (p: seq<seq<Byte>>)
    ensures |p| == |payloads| && forall i :: 0 <= i < |p| ==> p[i] == key + payloads[i]
  {
    if payloads == [] then [] else [key + payloads[0]] + Keyed(key, payloads[1..])
  }

  /** An array of numbers is one delimited field, and any other array a field for every item. */
  lemma ArrayLayout(f: Field, items: seq<Value>)
    requires f.htype.Repeated? && StoredSlot(f, Many(items))
    ensures var e := EncodeSlot(f, Many(items));
            && (e.Bytes? <==> items == [] || (|items| <= f.arraySize && Encodes(f, items)))
            && (e.Bytes? && items != [] ==>
                  e.b == if TypeNumber(f.ltype) != 2 then Tag(2, f.tag) + Delimited(Concat(Payloads(f, items)))
                         else Concat(Keyed(Tag(2, f.tag), Payloads(f, items))))
  {
    hide EncodeValue, Encodes, Tag, Delimited;
    PackedLayout(f, items);
    TaggedLayout(f, items);
  }

  lemma {:induction false} PackedLayout(f: Field, items: seq<Value>)
    requires forall x :: x in items ==> StoredValue(f, x)
    ensures var e := EncodePacked(f, items);
            (e.Bytes? <==> Encodes(f, items)) && (e.Bytes? ==> e.b == Concat(Payloads(f, items)))
    decreases |items|
  {
    hide StoredValue, EncodeValue, Encodes;
    if items != [] {
      OneMoreEncodes(f, items);
      PackedLayout(f, items[1..]);
      assert EncodePacked(f, items) == Then(EncodeValue(f, items[0]), EncodePacked(f, items[1..]));
      if Encodes(f, items) { assert Payloads(f, items)[1..] == Payloads(f, items[1..]); }
    } else {
      NoItems(f);
    }
  }

  lemma {:induction false} TaggedLayout(f: Field, items: seq<Value>)
    requires forall x :: x in items ==> StoredValue(f, x)
    ensures var e := EncodeTagged(f, items);
            && (e.Bytes? <==> Encodes(f, items))
            && (e.Bytes? ==> e.b == Concat(Keyed(Tag(TypeNumber(f.ltype), f.tag), Payloads(f, items))))
    decreases |items|
  {
    hide StoredValue, EncodeValue, Encodes, Tag;
    if items != [] {
      OneMoreEncodes(f, items);
      TaggedLayout(f, items[1..]);
      assert EncodeTagged(f, items) == Then(EncodeTaggedValue(f, items[0]), EncodeTagged(f, items[1..]));
      if Encodes(f, items) {
        var key, all := Tag(TypeNumber(f.ltype), f.tag), Payloads(f, items);
        assert all[1..] == Payloads(f, items[1..]);
        assert Keyed(key, all)[0] == key + all[0] && Keyed(key, all)[1..] == Keyed(key, all[1..]);
      }
    } else {
      NoItems(f);
    }
  }

  lemma NoItems(f: Field)
    ensures Encodes(f, []) && Payloads(f, []) == []
  {
  }

  /** What a message has for its field `i`. */
  function Part(fields: seq<Field>, msg: Message, i: nat): Encoded
    requires i < |fields| && Stored(fields, msg)
  {
    assert StoredAt(fields, msg, i);
    EncodeSlot(fields[i], msg[Leader(fields, i)])
  }

  /** The fields from position `i` on, each by itself. */
  function Parts(fields: seq<Field>, msg: Message, i: nat): (p: seq<Encoded>)
    requires i <= |fields| && Stored(fields, msg)
    ensures |p| == |fields| - i && forall k :: 0 <= k < |p| ==> p[k] == Part(fields, msg, i + k)
    decreases |fields| - i
  {
    if i == |fields| then [] else [Part(fields, msg, i)] + Parts(fields, msg, i + 1)
  }

  predicate AllDefined(parts: seq<Encoded>) { forall k :: 0 <= k < |parts| ==> parts[k].Bytes? }

  function Joined(parts: seq<Encoded>): seq<Byte>
    requires AllDefined(parts)
  {
    if parts == [] then [] else parts[0].b + Joined(parts[1..])
  }

  lemma OneMoreDefined(e: Encoded, rest: seq<Encoded>)
    ensures AllDefined([e] + rest) <==> e.Bytes? && AllDefined(rest)
    ensures AllDefined([e] + rest) ==> Joined([e] + rest) == e.b + Joined(rest)
  {
    var parts := [e] + rest;
    assert parts[1..] == rest;
    if AllDefined(parts) {
      assert parts[0] == e && forall k :: 0 <= k < |rest| ==> rest[k] == parts[k + 1];
    }
  }

  /** A message is its fields, in the order of the descriptor; it has an encoding if all of them do. */
  lemma MessageLayout(fields: seq<Field>, msg: Message)
    requires Stored(fields, msg)
    ensures var e, parts := Encode(fields, msg), Parts(fields, msg, 0);
            (e.Bytes? <==> AllDefined(parts)) && (e.Bytes? ==> e.b == Joined(parts))
  {
    PartsJoined(fields, msg, 0);
  }

  lemma {:induction false} PartsJoined(fields: seq<Field>, msg: Message, i: nat)
    requires i <= |fields| && Stored(fields, msg)
    ensures var e, parts := EncodeFrom(fields, i, msg), Parts(fields, msg, i);
            (e.Bytes? <==> AllDefined(parts)) && (e.Bytes? ==> e.b == Joined(parts))
    decreases |fields| - i
  {
    hide EncodeSlot, Stored, AllDefined, Joined;
    if i < |fields| {
      PartsJoined(fields, msg, i + 1);
      OneMoreDefined(Part(fields, msg, i), Parts(fields, msg, i + 1));
      assert EncodeFrom(fields, i, msg) == Then(Part(fields, msg, i), EncodeFrom(fields, i + 1, msg));
    } else {
      NoParts();
    }
  }

  lemma NoParts()
    ensures AllDefined([]) && Joined([]) == []
  {
  }

  // ---- what is read back from such bytes ----

  /** The two's complement number in 64 bits, or in the low 32 of them. */
  function Signed(u: nat, wide: bool): int
  {
    if wide then if 2 * u >= U64 then u - U64 else u
    else
      var low := u % U32;
      if 2 * low >= U32 then low - U32 else low
  }

  /** The number of values a C integer of `size` bytes has. */
  function Values(size: nat): nat
    requires size in {1, 2, 4, 8}
  {
    if size == 1 then 0x100 else if size == 2 then 0x1_0000 else if size == 4 then 0x1_0000_0000
    else 0x1_0000_0000_0000_0000
  }

  predicate SignedFits(size: nat, n: int)
    requires size in {1, 2, 4, 8}
  {
    2 * n + Values(size) >= 0 && 2 * n < Values(size)
  }

  /** What a varint field of each type holds after the varint of `u`, if it takes that number. */
  predicate Holds(f: Field, u: nat, n: int)
    requires f.dataSize in {1, 2, 4, 8}
  {
    match f.ltype
    case LUVarint => n == u && u < Values(f.dataSize)
    // anything of up to 32 bits is cut down to 32 bits first
    case LVarint => n == Signed(u, f.dataSize == 8) && SignedFits(f.dataSize, n)
    case _ => SignedFits(f.dataSize, n) && u == if n >= 0 then 2 * n else -2 * n - 1
  }

  /** A varint field takes a number if and only if its C type has it. */
  lemma NumberRead(f: Field, prev: Value, b: seq<Byte>, u: nat, t: seq<Byte>)
    requires f.ltype in {LVarint, LUVarint, LSVarint} && u < U64 && IsVarint(b, u)
    ensures var r := DecodeValue(f, prev, b + t);
            && (r.Ok? <==> f.dataSize in {1, 2, 4, 8} && exists n :: Holds(f, u, n))
            && (r.Ok? ==> r.value.Num? && Holds(f, u, r.value.n) && r.rest == t)
  {
    hide Varint, IsVarint, Varint64Loop;
    assert b == Varint(u) by {
      VarintLayout(u);
      VarintUnique(b, Varint(u), u);
    }
    VarintRoundTrip(u, t);
    if f.dataSize in {1, 2, 4, 8} {
      NumberHeld(f, u);
    }
  }

  /** The number held, if any, is the one the decoder's casts and checks yield. */
  lemma NumberHeld(f: Field, u: nat)
    requires f.ltype in {LVarint, LUVarint, LSVarint} && u < U64 && f.dataSize in {1, 2, 4, 8}
    ensures var n := match f.ltype
                     case LVarint => ClampSigned(f.dataSize, u)
                     case LUVarint => ClampUnsigned(f.dataSize, u)
                     case _ => ClampZigzag(f.dataSize, u);
            && (n.Some? ==> Holds(f, u, n.value))
            && (n.None? ==> forall m :: !Holds(f, u, m))
  {
    hide ClampSigned, ClampUnsigned, ClampZigzag, Holds;
    match f.ltype
    case LVarint => SignedHeld(f, u);
    case LUVarint => UnsignedHeld(f, u);
    case LSVarint => ZigzagHeld(f, u);
  }

  lemma SignedHeld(f: Field, u: nat)
    requires f.ltype == LVarint && u < U64 && f.dataSize in {1, 2, 4, 8}
    ensures var n := ClampSigned(f.dataSize, u);
            (n.Some? ==> Holds(f, u, n.value)) && (n.None? ==> forall m :: !Holds(f, u, m))
  {
  }

  lemma UnsignedHeld(f: Field, u: nat)
    requires f.ltype == LUVarint && u < U64 && f.dataSize in {1, 2, 4, 8}
    ensures var n := ClampUnsigned(f.dataSize, u);
            (n.Some? ==> Holds(f, u, n.value)) && (n.None? ==> forall m :: !Holds(f, u, m))
  {
  }

  lemma ZigzagHeld(f: Field, u: nat)
    requires f.ltype == LSVarint && u < U64 && f.dataSize in {1, 2, 4, 8}
    ensures var n := ClampZigzag(f.dataSize, u);
            (n.Some? ==> Holds(f, u, n.value)) && (n.None? ==> forall m :: !Holds(f, u, m))
  {
    hide Zigzag;
    var n := Unzigzag(u);
    assert u == if n >= 0 then 2 * n else -2 * n - 1 by { UnzigzagIs(u); }
  }

  lemma UnzigzagIs(u: nat)
    requires u < U64
    ensures var n := Unzigzag(u); u == if n >= 0 then 2 * n else -2 * n - 1
  {
  }

  /** What a field of bytes holds behind a length and that many bytes, if it takes them. */
  predicate Keeps(f: Field, body: seq<Byte>, kept: seq<Byte>)
  {
    match f.ltype
    // the length is kept in front of the bytes, in a word of 32 bits
    case LBytes => |body| + 4 <= f.dataSize && kept == body
    case LString => |body| + 1 <= f.dataSize && kept == body + [0]
    case _ => (|body| == f.dataSize && kept == body) || (body == [] && kept == Zeros(f.dataSize))
  }

  /** A field of bytes takes what fits its buffer, and nothing else. */
  lemma BytesRead(f: Field, prev: Value, b: seq<Byte>, body: seq<Byte>, t: seq<Byte>)
    requires f.ltype in {LBytes, LString, LFixedLengthBytes} && f.dataSize < U32
    requires |body| < U32 && IsDelimited(b, body)
    ensures var r := DecodeValue(f, prev, b + t);
            && (r.Ok? <==> exists kept :: Keeps(f, body, kept))
            && (r.Ok? ==> r.value.Blob? && Keeps(f, body, r.value.b) && r.rest == t)
  {
    hide Varint, IsVarint, DecodeVarint32;
    var prefix := b[..|b| - |body|];
    assert prefix == Varint(|body|) by {
      VarintLayout(|body|);
      VarintUnique(prefix, Varint(|body|), |body|);
    }
    Varint32RoundTrip(|body|, body + t);
    assert b + t == Varint(|body|) + (body + t);
    assert (body + t)[..|body|] == body && (body + t)[|body|..] == t;
    BytesHeld(f, body);
  }

  lemma BytesHeld(f: Field, body: seq<Byte>)
    requires f.ltype in {LBytes, LString, LFixedLengthBytes}
    ensures (exists kept :: Keeps(f, body, kept)) <==>
            match f.ltype
            case LBytes => |body| + 4 <= f.dataSize
            case LString => |body| + 1 <= f.dataSize
            case _ => |body| == f.dataSize || body == []
  {
    if f.ltype == LBytes && |body| + 4 <= f.dataSize { assert Keeps(f, body, body); }
    if f.ltype == LString && |body| + 1 <= f.dataSize { assert Keeps(f, body, body + [0]); }
    if f.ltype == LFixedLengthBytes && |body| == f.dataSize { assert Keeps(f, body, body); }
    if f.ltype == LFixedLengthBytes && body == [] { assert Keeps(f, body, Zeros(f.dataSize)); }
  }

  /** Four and eight bytes are read as the numbers they stand for. */
  lemma FixedRead(f: Field, prev: Value, b: seq<Byte>, n: nat, t: seq<Byte>)
    requires || (f.ltype == LFixed32 && n < U32 && IsWord(b, n))
             || (f.ltype == LFixed64 && n < U64 && |b| == 8 && IsWord(b[..4], n % U32) && IsWord(b[4..], n / U32))
    ensures DecodeValue(f, prev, b + t) == Ok(Num(n), t)
  {
    hide LittleEndian, FromLittleEndian;
    if f.ltype == LFixed32 {
      assert b == LittleEndian(n, 4) by { FourBytes(n); }
      FixedBack(n, 4);
      assert (b + t)[..4] == b && (b + t)[4..] == t;
    } else {
      assert b == LittleEndian(n, 8) by {
        EightBytes(n);
        FourBytes(n / U32);
        FourBytes(n);
        SameWord(n);
        assert b == b[..4] + b[4..];
      }
      FixedBack(n, 8);
      assert (b + t)[..8] == b && (b + t)[8..] == t;
    }
  }

  lemma FixedBack(n: nat, count: nat)
    requires (count == 4 && n < U32) || (count == 8 && n < U64)
    ensures FromLittleEndian(LittleEndian(n, count)) == n
  {
    hide LittleEndian, FromLittleEndian;
    WordSizes();
    FixedRoundTrip(n, count);
  }
}
