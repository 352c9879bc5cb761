/**
Message descriptors (`pb_field_t` arrays) and message values of nanopb, static allocation only.

A C struct is a typed tree here: slot `i` of a message belongs to field `i`, and the members of
a union (`oneof`) share the slot of the first member, as they share memory in C. Values that
the C struct stores but no one may read (an optional field whose `has_` flag is clear, bytes
after a string's terminator, a union nobody selected) are normalised by `Canon`.
*/
module PbDescriptor {
  import opened Bytes
  import Bits
  import PbWire

  datatype LType =
    | LVarint | LUVarint | LSVarint | LFixed32 | LFixed64
    | LBytes | LString | LSubmessage | LFixedLengthBytes

  datatype HType = Required | Optional | Repeated | OneOf

  /** One `pb_field_t` entry; `sub` and `init` are the two uses of its `ptr` member. */
  datatype Field = Field(
    tag: nat, ltype: LType, htype: HType,
    dataOffset: nat, sizeOffset: int, dataSize: nat, arraySize: nat,
    sub: seq<Field>, init: Option<Value>)

  /** `Num` is an integer field's value, `Blob` a string, bytes or fixed-length bytes buffer. */
  datatype Value = Num(n: int) | Blob(b: seq<Byte>) | Msg(slots: seq<Slot>)

  /**
  `Plain`: required, or proto3 singular without a flag. `Flagged`: optional with `has_`.
  `Many`: the counted items of an array. `Union`: the `which_` tag and the selected member.
  `Shared`: a union member that is not the first; its data lives in the first member's slot.
  */
  datatype Slot =
    | Plain(v: Value)
    | Flagged(has: bool, v: Value)
    | Many(items: seq<Value>)
    | Union(which: nat, v: Value)
    | Shared

  type Message = seq<Slot>

  // `pb_size_t` is 32 bits wide in this build (PB_FIELD_32BIT).
  const SIZE_MAX: nat := U32 - 1
  // offsetof(pb_bytes_array_t, bytes)
  const BYTES_HEADER: nat := 4
  const MAX_REQUIRED_FIELDS: nat := 64

  predicate Packable(t: LType) { t.LVarint? || t.LUVarint? || t.LSVarint? || t.LFixed32? || t.LFixed64? }

  predicate ValidIntSize(size: nat) { size == 1 || size == 2 || size == 4 || size == 8 }

  /** Whether field `i` continues the union of field `i - 1` (the data pointer is not advanced). */
  predicate InUnion(fields: seq<Field>, i: nat)
    requires i < |fields|
  {
    i > 0 && fields[i - 1].htype.OneOf? && fields[i].htype.OneOf? && fields[i].dataOffset == SIZE_MAX
  }

  /** The slot field `i` keeps its data in. */
  function Leader(fields: seq<Field>, i: nat): (k: nat)
    requires i < |fields|
    ensures k <= i && !InUnion(fields, k)
    ensures !InUnion(fields, i) ==> k == i
    ensures fields[i].htype.OneOf? ==> fields[k].htype.OneOf?
    decreases i
  {
    if InUnion(fields, i) then Leader(fields, i - 1) else i
  }

  /** The number of required fields before field `i`: `required_field_index` at position `i`. */
  function RequiredBefore(fields: seq<Field>, i: nat): (n: nat)
    requires i <= |fields|
    ensures n <= i
  {
    if i == 0 then 0
    else RequiredBefore(fields, i - 1) + (if fields[i - 1].htype.Required? then 1 else 0)
  }

  /** The position of the field with this tag, or `|fields|` if there is none. */
  function IndexOf(fields: seq<Field>, tag: nat): (i: nat)
    ensures i <= |fields|
    ensures i < |fields| ==> fields[i].tag == tag
    ensures forall k :: 0 <= k < i ==> fields[k].tag != tag
  {
    if fields == [] then 0
    else if fields[0].tag == tag then 0
    else 1 + IndexOf(fields[1..], tag)
  }

  /** What the .proto compiler guarantees of a descriptor without callbacks, extensions or fixed-count arrays. */
  predicate WellFormed(fields: seq<Field>)
    decreases fields
  {
    && (forall i, j :: 0 <= i < j < |fields| ==> fields[i].tag != fields[j].tag)
    && (forall i :: 0 <= i < |fields| ==> WellFormedField(fields[i]))
  }

  predicate WellFormedField(f: Field)
    decreases f
  {
    && 0 < f.tag < 0x2000_0000
    && f.dataSize <= SIZE_MAX && f.arraySize <= SIZE_MAX
    && (f.htype.Repeated? || f.htype.OneOf? ==> f.sizeOffset != 0)
    && (f.htype.Required? ==> f.sizeOffset == 0)
    // proto3 fields have no declared default
    && (f.htype.Optional? && f.sizeOffset == 0 ==> f.init.None?)
    && (f.init.Some? ==> GoodInit(f, f.init.value))
    && WellFormed(f.sub)
  }

  /** A declared default fits its field; a string default is its text and one terminator. */
  predicate GoodInit(f: Field, v: Value)
  {
    match f.ltype
    case LSubmessage => true
    case LBytes => v.Blob? && |v.b| + BYTES_HEADER <= f.dataSize
    case LString => v.Blob? && 0 < |v.b| <= f.dataSize && v.b == StringBytes(v.b) + [0]
    case LFixedLengthBytes => v.Blob? && |v.b| == f.dataSize
    case _ => v.Num? && InRange(f, v.n)
  }

  /** The width and sign a C integer type gives its values. */
  predicate InRange(f: Field, n: int)
  {
    match f.ltype
    case LUVarint =>
      (f.dataSize == 1 ==> 0 <= n < 0x100) && (f.dataSize == 2 ==> 0 <= n < U16) &&
      (f.dataSize == 4 ==> 0 <= n < U32) && 0 <= n < U64
    case LFixed32 => 0 <= n < U32
    case LFixed64 => 0 <= n < U64
    case _ =>
      (f.dataSize == 1 ==> -0x80 <= n < 0x80) && (f.dataSize == 2 ==> -0x8000 <= n < 0x8000) &&
      (f.dataSize == 4 ==> -(U32 / 2) <= n < U32 / 2) && -(U64 / 2) <= n < U64 / 2
  }

  /** `v` is something the memory of field `f` (one array entry, if repeated) can hold. */
  predicate StoredValue(f: Field, v: Value)
    decreases f, 0
  {
    match f.ltype
    case LSubmessage => v.Msg? && Stored(f.sub, v.slots)
    case LBytes => v.Blob? && |v.b| <= SIZE_MAX
    case LString => v.Blob? && |v.b| <= f.dataSize && (0 in v.b || |v.b| == f.dataSize)
    case LFixedLengthBytes => v.Blob? && |v.b| == f.dataSize
    case _ => v.Num? && InRange(f, v.n)
  }

  /** `slot` is what field `f` reads in the struct. */
  predicate StoredSlot(f: Field, slot: Slot)
    decreases f, 1
  {
    match f.htype
    case Required => slot.Plain? && StoredValue(f, slot.v)
    case Optional =>
      if f.sizeOffset != 0 then slot.Flagged? && StoredValue(f, slot.v)
      else slot.Plain? && StoredValue(f, slot.v)
    case Repeated => slot.Many? && forall x :: x in slot.items ==> StoredValue(f, x)
    case OneOf => slot.Union? && (slot.which == f.tag ==> StoredValue(f, slot.v))
  }

  /** `msg` is a struct of the type `fields` describes. */
  predicate Stored(fields: seq<Field>, msg: Message)
    decreases fields, 3
  {
    && |msg| == |fields|
    && forall i :: 0 <= i < |fields| ==> StoredAt(fields, msg, i)
  }

  predicate StoredAt(fields: seq<Field>, msg: Message, i: nat)
    requires i < |fields| == |msg|
    decreases fields, 2
  {
    StoredSlot(fields[i], msg[Leader(fields, i)])
  }

  // ---- defaults (`pb_message_set_to_defaults`) ----

  function DefaultValue(f: Field): Value
    decreases f, 0
  {
    if f.ltype.LSubmessage? then Msg(Default(f.sub))
    else if f.init.Some? then f.init.value
    else match f.ltype
      case LBytes => Blob([])
      case LString => Blob(if f.dataSize == 0 then [] else [0])
      case LFixedLengthBytes => Blob(Zeros(f.dataSize))
      case _ => Num(0)
  }

  function DefaultSlot(f: Field): Slot
    decreases f, 1
  {
    match f.htype
    case Required => Plain(DefaultValue(f))
    case Optional => if f.sizeOffset != 0 then Flagged(false, DefaultValue(f)) else Plain(DefaultValue(f))
    case Repeated => Many([])
    case OneOf => Union(0, Num(0))
  }

  function Default(fields: seq<Field>): (msg: Message)
    ensures |msg| == |fields|
    decreases fields, 2
  {
    seq(|fields|, i requires 0 <= i < |fields| =>
      if InUnion(fields, i) then Shared else DefaultSlot(fields[i]))
  }

  // ---- the observable part of a message ----

  /** The bytes of a C string in a buffer: everything before the first NUL, or the whole buffer. */
  function StringBytes(b: seq<Byte>): (s: seq<Byte>)
    ensures |s| <= |b| && s == b[..|s|] && 0 !in s
    ensures |s| < |b| <==> 0 in b
    ensures |s| < |b| ==> b[|s|] == 0
  {
    if b == [] || b[0] == 0 then [] else [b[0]] + StringBytes(b[1..])
  }

  function CanonValue(f: Field, v: Value): Value
    decreases f, 0
  {
    match f.ltype
    case LSubmessage => if v.Msg? then Msg(Canon(f.sub, v.slots)) else v
    case LString =>
      if v.Blob? && 0 in v.b then Blob(StringBytes(v.b) + [0]) else v
    case _ => v
  }

  /** The first `size` bytes of an integer in memory are all zero. */
  predicate ZeroBytes(n: int, size: nat)
  {
    var u := PbWire.ToUnsigned64(n);
    u >= 0 && AllZero(PbWire.LittleEndian(u, size))
  }

  predicate AllZero(b: seq<Byte>) { forall i :: 0 <= i < |b| ==> b[i] == 0 }

  /** For the sizes C integers have, a byte-wise zero is the number zero. */
  lemma ZeroBytesIsZero(f: Field, n: int)
    requires f.ltype.LVarint? || f.ltype.LUVarint? || f.ltype.LSVarint?
    requires ValidIntSize(f.dataSize) && InRange(f, n)
    ensures ZeroBytes(n, f.dataSize) <==> n == 0
  {
    LowBytes(PbWire.ToUnsigned64(n), f.dataSize);
    WordOfSize(f.dataSize);
    if f.dataSize == 1 {
      LowWord(n, 0x100, 0x100_0000_0000_0000);
    } else if f.dataSize == 2 {
      LowWord(n, U16, 0x1_0000_0000_0000);
    } else if f.dataSize == 4 {
      LowWord(n, U32, U32);
    } else {
      LowWord(n, U64, 1);
    }
  }

  lemma WordOfSize(size: nat)
    requires ValidIntSize(size)
    ensures Bits.Pow2(8 * size) ==
            if size == 1 then 0x100 else if size == 2 then U16 else if size == 4 then U32 else U64
  {
    PbWire.WordSizes();
    PbWire.PowerOf16();
  }

  /** The low word of a two's complement number that fits the word. */
  lemma LowWord(n: int, m: nat, k: nat)
    requires 0 < m <= U64 && 0 < k && m * k == U64 && n < m && 0 < n + m
    ensures PbWire.ToUnsigned64(n) % m == 0 <==> n == 0
  {
    if n < 0 {
      Multiple(m, k);
      Bits.ModUnique(m, k - 1, m + n);
    } else {
      Bits.ModSmall(n, m);
    }
  }

  lemma Multiple(m: nat, k: nat)
    requires m * k == U64 && k > 0
    ensures m * (k - 1) == U64 - m
  {
  }

  lemma {:induction false} LowBytes(u: nat, size: nat)
    ensures AllZero(PbWire.LittleEndian(u, size)) <==> u % Bits.Pow2(8 * size) == 0
  {
    if size > 0 {
      LowBytes(u / 256, size - 1);
      PbWire.SevenMore(8 * (size - 1));
      LowStep(u, size, Bits.Pow2(8 * (size - 1)));
    }
  }

  lemma LowStep(u: nat, size: nat, m: nat)
    requires size > 0 && m > 0
    requires AllZero(PbWire.LittleEndian(u / 256, size - 1)) <==> (u / 256) % m == 0
    ensures AllZero(PbWire.LittleEndian(u, size)) <==> u % (256 * m) == 0
  {
    var b, tail := PbWire.LittleEndian(u, size), PbWire.LittleEndian(u / 256, size - 1);
    assert b == [u % 256] + tail;
    assert AllZero(b) <==> u % 256 == 0 && AllZero(tail) by {
      if AllZero(b) {
        assert b[0] == 0 && forall i :: 0 <= i < |tail| ==> tail[i] == b[i + 1];
      }
    }
    Mod256(u, m);
  }

  lemma Mod256(u: nat, m: nat)
    requires m > 0
    ensures u % (256 * m) == 0 <==> u % 256 == 0 && (u / 256) % m == 0
  {
    var q, r := (u / 256) / m, (u / 256) % m;
    assert u / 256 == m * q + r;
    assert u == 256 * (m * q + r) + u % 256;
    assert u == (256 * m) * q + (256 * r + u % 256) by {
      assert (256 * m) * q == 256 * (m * q);
    }
    Bits.ModUnique(256 * m, q, 256 * r + u % 256);
  }

  /** Whether a proto3 singular value counts as absent, as `pb_check_proto3_default_value` has it. */
  predicate IsZeroValue(f: Field, v: Value)
    decreases f, 0
  {
    match f.ltype
    case LBytes => v.Blob? && v.b == []
    case LString => v.Blob? && StringBytes(v.b) == []
    case LFixedLengthBytes => f.dataSize == 0
    case LSubmessage => v.Msg? && |v.slots| == |f.sub| && IsZeroMessage(f.sub, v.slots)
    case _ => v.Num? && ZeroBytes(v.n, f.dataSize)
  }

  predicate IsZeroSlot(f: Field, slot: Slot)
    decreases f, 1
  {
    match f.htype
    case Required => false
    case Repeated => slot.Many? && slot.items == []
    case OneOf => slot.Union? && slot.which == 0
    case Optional =>
      if f.sizeOffset != 0 then slot.Flagged? && !slot.has else slot.Plain? && IsZeroValue(f, slot.v)
  }

  predicate IsZeroMessage(fields: seq<Field>, msg: Message)
    requires |msg| == |fields|
    decreases fields, 3
  {
    forall i :: 0 <= i < |fields| ==> IsZeroAt(fields, msg, i)
  }

  predicate IsZeroAt(fields: seq<Field>, msg: Message, i: nat)
    requires i < |fields| == |msg|
    decreases fields, 2
  {
    IsZeroSlot(fields[i], msg[Leader(fields, i)])
  }

  /** Whether the encoder writes anything for field `f`. */
  predicate Emits(f: Field, slot: Slot)
  {
    match f.htype
    case Required => true
    case Optional =>
      if f.sizeOffset != 0 then slot.Flagged? && slot.has else slot.Plain? && !IsZeroValue(f, slot.v)
    case Repeated => slot.Many? && slot.items != []
    case OneOf => slot.Union? && slot.which == f.tag
  }

  function CanonSlot(f: Field, slot: Slot): Slot
    decreases f, 2
  {
    match slot
    case Plain(v) => if Emits(f, slot) then Plain(CanonValue(f, v)) else Plain(DefaultValue(f))
    case Flagged(has, v) => Flagged(has, if has then CanonValue(f, v) else DefaultValue(f))
    case Many(items) => Many(CanonItems(f, items))
    case Union(which, v) => Union(which, CanonValue(f, v))
    case Shared => Shared
  }

  function CanonItems(f: Field, items: seq<Value>): (r: seq<Value>)
    ensures |r| == |items|
    ensures forall i :: 0 <= i < |items| ==> r[i] == CanonValue(f, items[i])
    decreases f, 1, |items|
  {
    if items == [] then [] else [CanonValue(f, items[0])] + CanonItems(f, items[1..])
  }

  /** The member of the union starting at `k` that the `which_` tag selects, at or after `j`. */
  function Selected(fields: seq<Field>, k: nat, j: nat, which: nat): (s: nat)
    requires k <= j <= |fields| && k < |fields|
    ensures j <= s <= |fields|
    ensures s < |fields| ==> Leader(fields, s) == k && fields[s].tag == which && fields[s].htype.OneOf?
    ensures s == |fields| ==>
      forall i :: j <= i < |fields| && Leader(fields, i) == k && fields[i].htype.OneOf? ==> fields[i].tag != which
    decreases |fields| - j
  {
    if j == |fields| then j
    else if Leader(fields, j) == k && fields[j].tag == which && fields[j].htype.OneOf? then j
    else Selected(fields, k, j + 1, which)
  }

  /** The part of a message that its readers may depend on. */
  function Canon(fields: seq<Field>, msg: Message): (r: Message)
    ensures |r| == |msg|
    decreases fields, 3
  {
    seq(|msg|, k requires 0 <= k < |msg| =>
      if k >= |fields| || InUnion(fields, k) then Shared
      else if fields[k].htype.OneOf? then
        (var s := Selected(fields, k, k, if msg[k].Union? then msg[k].which else 0);
         if s < |fields| then CanonSlot(fields[s], msg[k]) else Union(0, Num(0)))
      else CanonSlot(fields[k], msg[k]))
  }
}
