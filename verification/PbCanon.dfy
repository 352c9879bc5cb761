/**
Encoding a message again after it has been decoded: the decoder rebuilds the canonical form, and this
says when that encodes to the same bytes.

`Canon` leaves out what the encoder does not write, with one exception. Whether a proto3 singular
submessage is written at all depends on a test that sees more than what would be written: a `which_`
tag that names no member of its union makes the submessage count as non-empty. Such a `Hollow`
submessage is written, and its canonical form is not. The bytes are the same exactly if no submessage
that is written is hollow, and otherwise fewer.
*/
module PbCanon {
  import opened Bytes
  import opened PbDescriptor
  import opened PbEncodeSpec
  import PbDecodeSpec
  import PbRoundTrip
  import PbWire

  // ---- hollow submessages ----

  /** Nothing but zeros, unions whose tag names no member, and proto3 submessages of that kind. */
  predicate Hollow(fields: seq<Field>, msg: Message)
    requires Stored(fields, msg)
    decreases fields, 4
  {
    forall i :: 0 <= i < |fields| ==> HollowAt(fields, msg, i)
  }

  predicate HollowAt(fields: seq<Field>, msg: Message, i: nat)
    requires i < |fields| && Stored(fields, msg)
    decreases fields, 3
  {
    assert StoredAt(fields, msg, i);
    var f, slot := fields[i], msg[Leader(fields, i)];
    assert StoredSlot(f, slot);
    if f.htype.OneOf? then slot.which == 0 || !NamesMember(fields, i, slot.which) else HollowSlot(f, slot)
  }

  predicate HollowSlot(f: Field, slot: Slot)
    requires StoredSlot(f, slot) && !f.htype.OneOf?
    decreases f, 1
  {
    match f.htype
    case Required => false
    case Repeated => slot.items == []
    case Optional => if f.sizeOffset != 0 then !slot.has else HollowValue(f, slot.v)
  }

  /** The tag is that of a member of the union that field `i` belongs to. */
  predicate NamesMember(fields: seq<Field>, i: nat, which: nat)
    requires i < |fields|
  {
    Selected(fields, Leader(fields, i), Leader(fields, i), which) < |fields|
  }

  predicate HollowValue(f: Field, v: Value)
    requires StoredValue(f, v)
    decreases f, 0
  {
    IsZeroValue(f, v) || (f.ltype.LSubmessage? && Hollow(f.sub, v.slots))
  }

  // ---- messages without hollow submessages that are written ----

  predicate SolidValue(f: Field, v: Value)
    requires StoredValue(f, v)
    decreases f, 0
  {
    f.ltype.LSubmessage? ==> Solid(f.sub, v.slots)
  }

  predicate SolidItems(f: Field, items: seq<Value>)
    requires forall x :: x in items ==> StoredValue(f, x)
    decreases f, 1, |items|
  {
    items != [] ==> SolidValue(f, items[0]) && SolidItems(f, items[1..])
  }

  /** The values of this field that are written are solid, and no proto3 submessage among them is hollow. */
  predicate SolidSlot(f: Field, slot: Slot)
    requires StoredSlot(f, slot)
    decreases f, 2
  {
    match f.htype
    case Repeated => SolidItems(f, slot.items)
    case OneOf => slot.which == f.tag ==> SolidValue(f, slot.v)
    case Required => SolidValue(f, slot.v)
    case Optional =>
      if f.sizeOffset != 0 then slot.has ==> SolidValue(f, slot.v)
      else IsZeroValue(f, slot.v) || (!HollowValue(f, slot.v) && SolidValue(f, slot.v))
  }

  /** No hollow submessage is written, here or in any submessage that is written. */
  predicate Solid(fields: seq<Field>, msg: Message)
    requires Stored(fields, msg)
    decreases fields, 4
  {
    forall i :: 0 <= i < |fields| ==> SolidAt(fields, msg, i)
  }

  predicate SolidAt(fields: seq<Field>, msg: Message, i: nat)
    requires i < |fields| && Stored(fields, msg)
    decreases fields, 3
  {
    assert StoredAt(fields, msg, i);
    SolidSlot(fields[i], msg[Leader(fields, i)])
  }

  // ---- comparing two encodings ----

  /** `c` is what `e` becomes: the same bytes if `same`, and otherwise fewer. */
  predicate Shrinks(e: Encoded, c: Encoded, same: bool)
  {
    e.Bytes? ==> c.Bytes? && if same then c == e else |c.b| < |e.b|
  }

  lemma ShrinksThen(a: Encoded, a': Encoded, s: bool, b: Encoded, b': Encoded, t: bool)
    requires Shrinks(a, a', s) && Shrinks(b, b', t)
    ensures Shrinks(Then(a, b), Then(a', b'), s && t)
  {
  }

  lemma {:induction false} VarintLonger(m: nat, n: nat)
    requires m <= n
    ensures |PbWire.Varint(m)| <= |PbWire.Varint(n)|
    decreases n
  {
    if m >= 128 { VarintLonger(m / 128, n / 128); }
  }

  /** A length prefix does not make up for fewer bytes. */
  lemma ShrinksDelimited(e: Encoded, c: Encoded, same: bool)
    requires Shrinks(e, c, same) && e.Bytes?
    ensures Shrinks(Bytes(Delimited(e.b)), Bytes(Delimited(c.b)), same)
  {
    VarintLonger(|c.b|, |e.b|);
  }

  // ---- defaults ----

  lemma {:induction false} DefaultValueStored(f: Field)
    requires WellFormedField(f)
    ensures StoredValue(f, DefaultValue(f))
    decreases f, 0
  {
    if f.ltype.LSubmessage? { DefaultStored(f.sub); }
  }

  lemma {:induction false} DefaultStored(fields: seq<Field>)
    requires WellFormed(fields)
    ensures Stored(fields, Default(fields))
    decreases fields, 1
  {
    forall i | 0 <= i < |fields| ensures StoredAt(fields, Default(fields), i) {
      var k := Leader(fields, i);
      DefaultValueStored(fields[i]);
    }
  }

  /** A value that is left out because it is zero comes back as a default that is zero as well. */
  lemma {:induction false} DefaultValueZero(f: Field, v: Value)
    requires WellFormedField(f) && f.init.None? && StoredValue(f, v) && IsZeroValue(f, v)
    ensures IsZeroValue(f, DefaultValue(f))
    decreases f, 0
  {
    match f.ltype
    case LSubmessage => DefaultZero(f.sub, v.slots);
    case LBytes =>
    case LString =>
    case LFixedLengthBytes =>
    case _ => LowBytes(0, f.dataSize);
  }

  lemma {:induction false} DefaultSlotZero(f: Field, slot: Slot)
    requires WellFormedField(f) && StoredSlot(f, slot) && IsZeroSlot(f, slot)
    ensures IsZeroSlot(f, DefaultSlot(f))
    decreases f, 1
  {
    if f.htype.Optional? && f.sizeOffset == 0 {
      DefaultValueZero(f, slot.v);
    }
  }

  lemma {:induction false} DefaultZero(fields: seq<Field>, msg: Message)
    requires WellFormed(fields) && Stored(fields, msg) && IsZeroMessage(fields, msg)
    ensures IsZeroMessage(fields, Default(fields))
    decreases fields, 2
  {
    forall i | 0 <= i < |fields| ensures IsZeroAt(fields, Default(fields), i) {
      var k := Leader(fields, i);
      assert StoredAt(fields, msg, i) && IsZeroAt(fields, msg, i);
      assert StoredSlot(fields[i], msg[k]) && IsZeroSlot(fields[i], msg[k]);
      DefaultSlotZero(fields[i], msg[k]);
      assert fields[i].htype.OneOf? || k == i;
    }
  }

  // ---- the canonical form ----

  lemma {:induction false} Terminated(b: seq<Byte>)
    requires 0 !in b
    ensures StringBytes(b + [0]) == b
  {
    if b != [] {
      assert (b + [0])[1..] == b[1..] + [0];
      Terminated(b[1..]);
    }
  }

  lemma {:induction false} CanonValueShrinks(f: Field, v: Value)
    requires WellFormedField(f) && StoredValue(f, v)
    ensures var c := CanonValue(f, v);
            StoredValue(f, c) && Shrinks(EncodeValue(f, v), EncodeValue(f, c), SolidValue(f, v))
            && (IsZeroValue(f, c) <==> HollowValue(f, v))
    decreases f, 0
  {
    match f.ltype
    case LString => if 0 in v.b { Terminated(StringBytes(v.b)); }
    case LSubmessage =>
      CanonShrinks(f.sub, v.slots);
      var e, c := EncodeFrom(f.sub, 0, v.slots), EncodeFrom(f.sub, 0, Canon(f.sub, v.slots));
      if e.Bytes? { ShrinksDelimited(e, c, Solid(f.sub, v.slots)); }
      if IsZeroMessage(f.sub, v.slots) { ZeroIsHollow(f.sub, v.slots); }
    case _ =>
  }

  lemma {:induction false} ZeroIsHollow(fields: seq<Field>, msg: Message)
    requires Stored(fields, msg) && IsZeroMessage(fields, msg)
    ensures Hollow(fields, msg)
  {
    forall i | 0 <= i < |fields| ensures HollowAt(fields, msg, i) {
      assert StoredAt(fields, msg, i) && IsZeroAt(fields, msg, i);
      assert StoredSlot(fields[i], msg[Leader(fields, i)]) && IsZeroSlot(fields[i], msg[Leader(fields, i)]);
    }
  }

  lemma {:induction false} CanonItemsShrink(f: Field, items: seq<Value>)
    requires WellFormedField(f) && forall x :: x in items ==> StoredValue(f, x)
    ensures var c := CanonItems(f, items);
            && (forall x :: x in c ==> StoredValue(f, x))
            && Shrinks(EncodeTagged(f, items), EncodeTagged(f, c), SolidItems(f, items))
    decreases f, 1, |items|
  {
    if items != [] {
      var c := CanonItems(f, items);
      CanonValueShrinks(f, items[0]);
      CanonItemsShrink(f, items[1..]);
      assert c[1..] == CanonItems(f, items[1..]) && c[0] == CanonValue(f, items[0]);
      TaggedShrinks(f, items[0]);
      ShrinksThen(EncodeTaggedValue(f, items[0]), EncodeTaggedValue(f, c[0]), SolidValue(f, items[0]),
                  EncodeTagged(f, items[1..]), EncodeTagged(f, c[1..]), SolidItems(f, items[1..]));
    }
  }

  lemma TaggedShrinks(f: Field, v: Value)
    requires StoredValue(f, v) && StoredValue(f, CanonValue(f, v))
    requires Shrinks(EncodeValue(f, v), EncodeValue(f, CanonValue(f, v)), SolidValue(f, v))
    ensures Shrinks(EncodeTaggedValue(f, v), EncodeTaggedValue(f, CanonValue(f, v)), SolidValue(f, v))
  {
    var tag := Bytes(Tag(WireType(f.ltype), f.tag));
    ShrinksThen(tag, tag, true, EncodeValue(f, v), EncodeValue(f, CanonValue(f, v)), SolidValue(f, v));
  }

  /** Numbers are what they are. */
  lemma {:induction false} PackedAreSolid(f: Field, items: seq<Value>)
    requires Packable(f.ltype) && forall x :: x in items ==> StoredValue(f, x)
    ensures CanonItems(f, items) == items && SolidItems(f, items)
  {
    if items != [] {
      PackedAreSolid(f, items[1..]);
      assert items == [items[0]] + items[1..];
    }
  }

  lemma {:induction false} CanonArrayShrinks(f: Field, items: seq<Value>)
    requires WellFormedField(f) && forall x :: x in items ==> StoredValue(f, x)
    ensures var c := CanonItems(f, items);
            && (forall x :: x in c ==> StoredValue(f, x))
            && Shrinks(EncodeArray(f, items), EncodeArray(f, c), SolidItems(f, items))
    decreases f, 2
  {
    if Packable(f.ltype) {
      PackedAreSolid(f, items);
    } else {
      CanonItemsShrink(f, items);
    }
  }

  /** An array, once its items are known to shrink. */
  lemma RepeatedShrinks(f: Field, slot: Slot)
    requires StoredSlot(f, slot) && f.htype.Repeated?
    requires forall x :: x in CanonItems(f, slot.items) ==> StoredValue(f, x)
    requires Shrinks(EncodeArray(f, slot.items), EncodeArray(f, CanonItems(f, slot.items)), SolidItems(f, slot.items))
    ensures var c := CanonSlot(f, slot);
            && StoredSlot(f, c) && Shrinks(EncodeSlot(f, slot), EncodeSlot(f, c), SolidSlot(f, slot))
            && (IsZeroSlot(f, c) <==> HollowSlot(f, slot))
  {
    hide EncodeValue, EncodeTagged, EncodePacked, SolidValue, CanonValue;
  }

  /** A required field or a member of a union, once its value is known to shrink. */
  lemma SingleShrinks(f: Field, slot: Slot)
    requires StoredSlot(f, slot) && (f.htype.Required? || (f.htype.OneOf? && slot.which == f.tag))
    requires StoredValue(f, CanonValue(f, slot.v))
    requires Shrinks(EncodeTaggedValue(f, slot.v), EncodeTaggedValue(f, CanonValue(f, slot.v)), SolidValue(f, slot.v))
    ensures var c := CanonSlot(f, slot);
            StoredSlot(f, c) && Shrinks(EncodeSlot(f, slot), EncodeSlot(f, c), SolidSlot(f, slot))
    ensures f.htype.Required? ==> (IsZeroSlot(f, CanonSlot(f, slot)) <==> HollowSlot(f, slot))
  {
    hide EncodeTaggedValue, EncodeArray, SolidItems, SolidValue, CanonItems, CanonValue;
  }

  /** A single optional field, once its value is known to shrink. */
  lemma OptionalShrinks(f: Field, slot: Slot)
    requires WellFormedField(f) && StoredSlot(f, slot) && f.htype.Optional?
    requires StoredValue(f, CanonValue(f, slot.v)) && StoredValue(f, DefaultValue(f))
    requires IsZeroValue(f, CanonValue(f, slot.v)) <==> HollowValue(f, slot.v)
    requires Shrinks(EncodeTaggedValue(f, slot.v), EncodeTaggedValue(f, CanonValue(f, slot.v)), SolidValue(f, slot.v))
    requires !Emits(f, slot) && f.sizeOffset == 0 ==> IsZeroValue(f, DefaultValue(f))
    ensures var c := CanonSlot(f, slot);
            && StoredSlot(f, c) && Shrinks(EncodeSlot(f, slot), EncodeSlot(f, c), SolidSlot(f, slot))
            && (IsZeroSlot(f, c) <==> HollowSlot(f, slot))
  {
    hide EncodeValue, EncodeArray, SolidItems, SolidValue, CanonItems, CanonValue, DefaultValue, IsZeroValue;
  }

  lemma {:induction false} CanonSlotShrinks(f: Field, slot: Slot)
    requires WellFormedField(f) && StoredSlot(f, slot)
    requires f.htype.OneOf? ==> slot.which == f.tag
    ensures var c := CanonSlot(f, slot);
            StoredSlot(f, c) && Shrinks(EncodeSlot(f, slot), EncodeSlot(f, c), SolidSlot(f, slot))
    ensures !f.htype.OneOf? ==> (IsZeroSlot(f, CanonSlot(f, slot)) <==> HollowSlot(f, slot))
    decreases f, 3
  {
    hide EncodeValue, EncodeTagged, EncodeTaggedValue, EncodeArray, SolidItems, SolidValue, CanonItems, CanonValue,
         HollowValue, IsZeroValue, CanonSlot, EncodeSlot, SolidSlot, HollowSlot, IsZeroSlot, Shrinks;
    DefaultValueStored(f);
    match f.htype
    case Repeated =>
      CanonArrayShrinks(f, slot.items);
      RepeatedShrinks(f, slot);
    case Optional =>
      CanonValueShrinks(f, slot.v);
      TaggedShrinks(f, slot.v);
      if !Emits(f, slot) && f.sizeOffset == 0 { DefaultValueZero(f, slot.v); }
      OptionalShrinks(f, slot);
    case _ =>
      CanonValueShrinks(f, slot.v);
      TaggedShrinks(f, slot.v);
      SingleShrinks(f, slot);
  }

  lemma {:induction false} CanonFieldShrinks(fields: seq<Field>, msg: Message, i: nat)
    requires WellFormed(fields) && Stored(fields, msg) && i < |fields|
    ensures StoredAt(fields, msg, i) && StoredAt(fields, Canon(fields, msg), i)
    ensures var f, c, was := fields[i], Canon(fields, msg)[Leader(fields, i)], msg[Leader(fields, i)];
            Shrinks(EncodeSlot(f, was), EncodeSlot(f, c), SolidAt(fields, msg, i))
    ensures IsZeroAt(fields, Canon(fields, msg), i) <==> HollowAt(fields, msg, i)
    decreases fields, 4
  {
    hide EncodeSlot, SolidSlot, HollowSlot, CanonSlot;
    var f, k := fields[i], Leader(fields, i);
    assert StoredAt(fields, msg, i) && StoredSlot(f, msg[k]);
    if !f.htype.OneOf? {
      CanonSlotShrinks(f, msg[k]);
    } else if msg[k].which == f.tag {
      SelectsItself(fields, i, f.tag);
      CanonSlotShrinks(f, msg[k]);
      assert CanonSlot(f, msg[k]).which == f.tag by { UnionKeepsTag(f, msg[k]); }
    } else {
      CanonOther(fields, msg, i);
    }
  }

  lemma UnionKeepsTag(f: Field, slot: Slot)
    requires slot.Union?
    ensures CanonSlot(f, slot).Union? && CanonSlot(f, slot).which == slot.which
  {
  }

  /** A union whose tag is not the field's is not written for it, before or after. */
  lemma CanonOther(fields: seq<Field>, msg: Message, i: nat)
    requires WellFormed(fields) && Stored(fields, msg) && i < |fields| && fields[i].htype.OneOf?
    requires StoredSlot(fields[i], msg[Leader(fields, i)]) && msg[Leader(fields, i)].which != fields[i].tag
    ensures var k := Leader(fields, i); var c := Canon(fields, msg)[k];
            && c.Union? && c.which == (if NamesMember(fields, i, msg[k].which) then msg[k].which else 0)
            && StoredSlot(fields[i], c) && EncodeSlot(fields[i], c) == Bytes([]) == EncodeSlot(fields[i], msg[k])
            && SolidSlot(fields[i], msg[k])
  {
    assert WellFormedField(fields[i]);
  }

  /** With distinct tags the member selected by a field's own tag is that field. */
  lemma SelectsItself(fields: seq<Field>, i: nat, which: nat)
    requires WellFormed(fields) && i < |fields| && fields[i].htype.OneOf? && fields[i].tag == which
    ensures Selected(fields, Leader(fields, i), Leader(fields, i), which) == i
  {
    var k := Leader(fields, i);
    var s := Selected(fields, k, k, which);
    assert s < |fields| && fields[s].tag == fields[i].tag;
  }

  /** The canonical form is a message of the same type that encodes to the same bytes, or to fewer. */
  lemma {:induction false} CanonShrinks(fields: seq<Field>, msg: Message)
    requires WellFormed(fields) && Stored(fields, msg)
    ensures var c := Canon(fields, msg);
            Stored(fields, c) && Shrinks(EncodeFrom(fields, 0, msg), EncodeFrom(fields, 0, c), Solid(fields, msg))
            && (IsZeroMessage(fields, c) <==> Hollow(fields, msg))
    decreases fields, 5
  {
    var c := Canon(fields, msg);
    forall i | 0 <= i < |fields|
      ensures StoredAt(fields, c, i) && (IsZeroAt(fields, c, i) <==> HollowAt(fields, msg, i))
    {
      CanonFieldShrinks(fields, msg, i);
    }
    forall i | 0 <= i < |fields| ensures SlotShrinks(fields, i, msg, c) {
      CanonFieldShrinks(fields, msg, i);
    }
    ShrinksFrom(fields, 0, msg, c);
    assert SolidFrom(fields, 0, msg) <==> Solid(fields, msg);
  }

  predicate SlotShrinks(fields: seq<Field>, j: nat, a: Message, c: Message)
    requires j < |fields| && Stored(fields, a) && Stored(fields, c)
  {
    assert StoredAt(fields, a, j) && StoredAt(fields, c, j);
    var k := Leader(fields, j);
    Shrinks(EncodeSlot(fields[j], a[k]), EncodeSlot(fields[j], c[k]), SolidAt(fields, a, j))
  }

  predicate SolidFrom(fields: seq<Field>, i: nat, a: Message)
    requires Stored(fields, a)
  {
    forall j :: i <= j < |fields| ==> SolidAt(fields, a, j)
  }

  lemma {:induction false} ShrinksFrom(fields: seq<Field>, i: nat, a: Message, c: Message)
    requires i <= |fields| && Stored(fields, a) && Stored(fields, c)
    requires forall j :: i <= j < |fields| ==> SlotShrinks(fields, j, a, c)
    ensures Shrinks(EncodeFrom(fields, i, a), EncodeFrom(fields, i, c), SolidFrom(fields, i, a))
    decreases |fields| - i
  {
    if i < |fields| {
      assert SlotShrinks(fields, i, a, c);
      ShrinksFrom(fields, i + 1, a, c);
      var k := Leader(fields, i);
      assert StoredAt(fields, a, i) && StoredAt(fields, c, i);
      ShrinksThen(EncodeSlot(fields[i], a[k]), EncodeSlot(fields[i], c[k]), SolidAt(fields, a, i),
                  EncodeFrom(fields, i + 1, a), EncodeFrom(fields, i + 1, c), SolidFrom(fields, i + 1, a));
      assert SolidFrom(fields, i, a) <==> SolidAt(fields, a, i) && SolidFrom(fields, i + 1, a);
    }
  }

  /**
  Encoding what the decoder made of an encoding gives the same bytes exactly if no hollow submessage
  was written, and otherwise fewer.
  */
  lemma ReEncode(fields: seq<Field>, msg: Message)
    requires WellFormed(fields) && Stored(fields, msg) && PbRoundTrip.Decodable(fields, msg)
    requires Encode(fields, msg).Bytes? && |Encode(fields, msg).b| < U64 / 2
    ensures var r := PbDecodeSpec.Decode(fields, Encode(fields, msg).b);
            && r.Ok? && Stored(fields, r.value) && Encode(fields, r.value).Bytes?
            && (Encode(fields, r.value) == Encode(fields, msg) <==> Solid(fields, msg))
            && |Encode(fields, r.value).b| <= |Encode(fields, msg).b|
  {
    PbRoundTrip.RoundTrip(fields, msg);
    CanonShrinks(fields, msg);
  }

  /** A hollow submessage: a stray `which_` tag makes it be written, and its canonical form is left out. */
  lemma StrayTag(inner: Field, outer: Field)
    requires inner == Field(1, LUVarint, OneOf, 4, -4, 4, 0, [], None)
    requires outer == Field(1, LSubmessage, Optional, 0, 0, 8, 0, [inner], None)
    ensures var msg := [Plain(Msg([Union(7, Num(0))]))];
            && WellFormed([outer]) && Stored([outer], msg) && !Solid([outer], msg)
            && Encode([outer], msg) == Bytes([10, 0])
            && Canon([outer], msg) == Default([outer]) && Stored([outer], Default([outer]))
            && Encode([outer], Default([outer])) == Bytes([])
  {
    var sub, slots, msg := [inner], [Union(7, Num(0))], [Plain(Msg([Union(7, Num(0))]))];
    assert Leader(sub, 0) == 0 && Leader([outer], 0) == 0;
    assert WellFormedField(inner) && WellFormed(sub) && WellFormedField(outer);
    assert StoredSlot(inner, slots[0]) && StoredAt(sub, slots, 0) && Stored(sub, slots);
    assert StoredValue(outer, msg[0].v) && StoredSlot(outer, msg[0]) && StoredAt([outer], msg, 0);
    assert Selected(sub, 0, 0, 7) == 1 && HollowAt(sub, slots, 0);
    assert Hollow(sub, slots) && HollowValue(outer, msg[0].v);
    StrayWritten(inner, outer);
    assert !SolidSlot(outer, msg[0]);
    assert !SolidAt([outer], msg, 0);
    StrayCanon(inner, outer);
  }

  lemma StrayWritten(inner: Field, outer: Field)
    requires inner == Field(1, LUVarint, OneOf, 4, -4, 4, 0, [], None)
    requires outer == Field(1, LSubmessage, Optional, 0, 0, 8, 0, [inner], None)
    requires Stored([inner], [Union(7, Num(0))]) && Stored([outer], [Plain(Msg([Union(7, Num(0))]))])
    ensures Encode([outer], [Plain(Msg([Union(7, Num(0))]))]) == Bytes([10, 0])
    ensures Emits(outer, Plain(Msg([Union(7, Num(0))])))
  {
    var sub, slots, v := [inner], [Union(7, Num(0))], Msg([Union(7, Num(0))]);
    assert !IsZeroAt(sub, slots, 0);
    assert !IsZeroMessage(sub, slots);
    assert !IsZeroValue(outer, v);
    assert EncodeSlot(inner, slots[0]) == Bytes([]) && EncodeFrom(sub, 1, slots) == Bytes([]);
    assert EncodeFrom(sub, 0, slots) == Bytes([]);
    assert EncodeValue(outer, v) == Bytes([0]);
    assert Tag(WireType(LSubmessage), 1) == [10];
    assert EncodeSlot(outer, Plain(v)) == Bytes([10, 0]);
    assert EncodeFrom([outer], 1, [Plain(v)]) == Bytes([]);
  }

  lemma StrayCanon(inner: Field, outer: Field)
    requires inner == Field(1, LUVarint, OneOf, 4, -4, 4, 0, [], None)
    requires outer == Field(1, LSubmessage, Optional, 0, 0, 8, 0, [inner], None)
    requires WellFormed([outer]) && Emits(outer, Plain(Msg([Union(7, Num(0))])))
    ensures Canon([outer], [Plain(Msg([Union(7, Num(0))]))]) == Default([outer])
    ensures Stored([outer], Default([outer])) && Encode([outer], Default([outer])) == Bytes([])
  {
    var sub, slots := [inner], [Union(7, Num(0))];
    DefaultStored([outer]);
    assert Selected(sub, 0, 0, 7) == 1;
    assert Canon(sub, slots) == Default(sub);
    var v, d := Msg(slots), Msg(Default(sub));
    assert DefaultValue(outer) == d && CanonValue(outer, v) == d;
    assert CanonSlot(outer, Plain(v)) == Plain(d) == DefaultSlot(outer);
    assert Canon([outer], [Plain(v)])[0] == Plain(d) == Default([outer])[0];
    assert IsZeroAt(sub, Default(sub), 0);
    assert IsZeroMessage(sub, Default(sub));
    assert IsZeroValue(outer, d);
    assert StoredAt([outer], Default([outer]), 0);
    assert EncodeSlot(outer, Default([outer])[0]) == Bytes([]) && EncodeFrom([outer], 1, Default([outer])) == Bytes([]);
  }
}
