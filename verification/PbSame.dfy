/**
What a reader of a message sees is what its writer put in.

`SameMessage` compares two structs field by field as a program does that reads them: values where a field is
present, text up to its terminator, the member of a union that is selected. It says nothing about what is
written and what is left out, nor about canonical forms.
*/
module PbSame {
  import opened Bytes
  import opened PbWire
  import opened PbDescriptor
  import opened PbEncodeSpec
  import opened PbDecodeSpec
  import opened PbMerge
  import PbRoundTrip

  // ---- the same to a reader ----

  predicate SameValue(f: Field, a: Value, b: Value)
    decreases f, 0
  {
    match f.ltype
    case LSubmessage => a.Msg? && b.Msg? && SameMessage(f.sub, a.slots, b.slots)
    case LString => a.Blob? && b.Blob? && StringBytes(a.b) == StringBytes(b.b)
    case _ => a == b
  }

  predicate SameItems(f: Field, a: seq<Value>, b: seq<Value>)
    decreases f, 1
  {
    |a| == |b| && forall i :: 0 <= i < |a| ==> SameValue(f, a[i], b[i])
  }

  predicate SameSlot(f: Field, a: Slot, b: Slot)
    decreases f, 2
  {
    match f.htype
    case Required => a.Plain? && b.Plain? && SameValue(f, a.v, b.v)
    case Optional =>
      if f.sizeOffset != 0 then a.Flagged? && b.Flagged? && a.has == b.has && (a.has ==> SameValue(f, a.v, b.v))
      else a.Plain? && b.Plain? && SameValue(f, a.v, b.v)
    case Repeated => a.Many? && b.Many? && SameItems(f, a.items, b.items)
    case OneOf =>
      && a.Union? && b.Union? && (a.which == f.tag <==> b.which == f.tag)
      && (a.which == f.tag ==> SameValue(f, a.v, b.v))
  }

  predicate SameMessage(fields: seq<Field>, a: Message, b: Message)
    decreases fields, 4
  {
    |a| == |b| == |fields| && forall i :: 0 <= i < |fields| ==> SameAt(fields, a, b, i)
  }

  predicate SameAt(fields: seq<Field>, a: Message, b: Message, i: nat)
    requires i < |fields| == |a| == |b|
    decreases fields, 3
  {
    SameSlot(fields[i], a[Leader(fields, i)], b[Leader(fields, i)])
  }

  /** The sizes that C types have, in the descriptor and those below it. */
  predicate RealSizes(fields: seq<Field>)
    decreases fields
  {
    forall i :: 0 <= i < |fields| ==> RealSize(fields[i])
  }

  predicate RealSize(f: Field)
    decreases f
  {
    && (f.ltype.LVarint? || f.ltype.LUVarint? || f.ltype.LSVarint? ==> ValidIntSize(f.dataSize))
    && (f.ltype.LFixed32? ==> f.dataSize == 4) && (f.ltype.LFixed64? ==> f.dataSize == 8)
    && RealSizes(f.sub)
  }

  // ---- what is left out ----

  lemma NumberZero(f: Field, n: int)
    requires Packable(f.ltype) && RealSize(f) && InRange(f, n) && ZeroBytes(n, f.dataSize)
    ensures n == 0
  {
    if f.ltype.LFixed32? || f.ltype.LFixed64? {
      LowBytes(ToUnsigned64(n), f.dataSize);
      WordOfSize(f.dataSize);
      Bits.ModSmall(n, if f.ltype.LFixed32? then U32 else U64);
    } else {
      ZeroBytesIsZero(f, n);
    }
  }

  /** A value that counts as zero is the same as the default. */
  lemma {:induction false} ZeroValueSame(f: Field, v: Value)
    requires WellFormedField(f) && RealSize(f) && f.init.None? && StoredValue(f, v) && IsZeroValue(f, v)
    ensures SameValue(f, v, DefaultValue(f))
    decreases f, 0
  {
    match f.ltype
    case LSubmessage => ZeroMessageSame(f.sub, v.slots);
    case LBytes =>
    case LString =>
    case LFixedLengthBytes =>
    case _ => NumberZero(f, v.n);
  }

  lemma {:induction false} ZeroSlotSame(fields: seq<Field>, msg: Message, i: nat)
    requires WellFormed(fields) && RealSizes(fields) && i < |fields| == |msg|
    requires StoredAt(fields, msg, i) && IsZeroAt(fields, msg, i)
    ensures SameAt(fields, msg, Default(fields), i)
    decreases fields, 0
  {
    var f, k := fields[i], Leader(fields, i);
    assert WellFormedField(f) && RealSize(f);
    assert Default(fields)[k] == DefaultSlot(fields[k]);
    if f.htype.Optional? && f.sizeOffset == 0 {
      ZeroValueSame(f, msg[k].v);
    }
  }

  lemma {:induction false} ZeroMessageSame(fields: seq<Field>, msg: Message)
    requires WellFormed(fields) && RealSizes(fields) && Stored(fields, msg) && IsZeroMessage(fields, msg)
    ensures SameMessage(fields, msg, Default(fields))
    decreases fields, 1
  {
    forall i | 0 <= i < |fields| ensures SameAt(fields, msg, Default(fields), i) {
      assert StoredAt(fields, msg, i) && IsZeroAt(fields, msg, i);
      ZeroSlotSame(fields, msg, i);
    }
  }

  // ---- the decoded message ----

  lemma {:induction false} CanonValueSame(f: Field, v: Value)
    requires WellFormedField(f) && RealSize(f) && StoredValue(f, v)
    ensures SameValue(f, v, CanonValue(f, v))
    decreases f, 0
  {
    match f.ltype
    case LSubmessage => CanonSame(f.sub, v.slots);
    case LString => if 0 in v.b { TextStays(StringBytes(v.b)); }
    case _ =>
  }

  lemma {:induction false} TextStays(b: seq<Byte>)
    requires 0 !in b
    ensures StringBytes(b + [0]) == b
  {
    if b != [] {
      assert (b + [0])[1..] == b[1..] + [0];
      TextStays(b[1..]);
    }
  }

  lemma {:induction false} CanonSlotSame(f: Field, slot: Slot)
    requires WellFormedField(f) && RealSize(f) && StoredSlot(f, slot)
    ensures SameSlot(f, slot, CanonSlot(f, slot))
    decreases f, 1
  {
    match f.htype
    case Repeated =>
      forall i | 0 <= i < |slot.items| ensures SameValue(f, slot.items[i], CanonItems(f, slot.items)[i]) {
        assert slot.items[i] in slot.items;
        CanonValueSame(f, slot.items[i]);
      }
    case OneOf => if slot.which == f.tag { CanonValueSame(f, slot.v); }
    case Required => CanonValueSame(f, slot.v);
    case Optional =>
      if f.sizeOffset != 0 || !IsZeroValue(f, slot.v) {
        CanonValueSame(f, slot.v);
      } else {
        ZeroValueSame(f, slot.v);
      }
  }

  /** A member of a union. */
  lemma {:induction false} CanonMemberSame(fields: seq<Field>, msg: Message, i: nat)
    requires WellFormed(fields) && RealSizes(fields) && Stored(fields, msg) && i < |fields| && fields[i].htype.OneOf?
    ensures SameAt(fields, msg, Canon(fields, msg), i)
    decreases fields, 0
  {
    var f, k := fields[i], Leader(fields, i);
    assert StoredAt(fields, msg, i) && WellFormedField(f) && RealSize(f);
    assert StoredSlot(f, msg[k]) && fields[k].htype.OneOf? && !InUnion(fields, k);
    var s := Selected(fields, k, k, msg[k].which);
    assert Canon(fields, msg)[k] ==
           if s < |fields| then CanonSlot(fields[s], msg[k]) else Union(0, Num(0));
    if msg[k].which == f.tag {
      assert s == i;
      CanonSlotSame(f, msg[k]);
    }
  }

  lemma {:induction false} CanonSame(fields: seq<Field>, msg: Message)
    requires WellFormed(fields) && RealSizes(fields) && Stored(fields, msg)
    ensures SameMessage(fields, msg, Canon(fields, msg))
    decreases fields, 1
  {
    forall i | 0 <= i < |fields| ensures SameAt(fields, msg, Canon(fields, msg), i) {
      assert StoredAt(fields, msg, i) && WellFormedField(fields[i]) && RealSize(fields[i]);
      if fields[i].htype.OneOf? {
        CanonMemberSame(fields, msg, i);
      } else {
        CanonSlotSame(fields[i], msg[i]);
      }
    }
  }

  /** Whatever is accepted of what was written is, to a reader, the message that was written. */
  lemma ReadBack(fields: seq<Field>, msg: Message)
    requires WellFormed(fields) && RealSizes(fields) && Stored(fields, msg)
    requires Encode(fields, msg).Bytes? && |Encode(fields, msg).b| < U64 / 2
    requires Decode(fields, Encode(fields, msg).b).Ok?
    ensures SameMessage(fields, msg, Decode(fields, Encode(fields, msg).b).value)
  {
    PbRoundTrip.RoundTrip(fields, msg);
    CanonSame(fields, msg);
  }

  /** A proto3 number, text or string of bytes comes back as it was, zero or not. */
  lemma SingularBack(fields: seq<Field>, msg: Message, i: nat)
    requires WellFormed(fields) && RealSizes(fields) && Stored(fields, msg)
    requires Encode(fields, msg).Bytes? && |Encode(fields, msg).b| < U64 / 2
    requires Decode(fields, Encode(fields, msg).b).Ok?
    requires i < |fields| && fields[i].htype.Optional? && fields[i].sizeOffset == 0 && !fields[i].ltype.LSubmessage?
    ensures var back := Decode(fields, Encode(fields, msg).b).value[i];
            && msg[i].Plain? && back.Plain?
            && if fields[i].ltype.LString?
               then msg[i].v.Blob? && back.v.Blob? && StringBytes(back.v.b) == StringBytes(msg[i].v.b)
               else back.v == msg[i].v
  {
    hide Decode, Encode;
    ReadBack(fields, msg);
    var back := Decode(fields, Encode(fields, msg).b).value;
    assert SameAt(fields, msg, back, i) && Leader(fields, i) == i;
    assert SameSlot(fields[i], msg[i], back[i]) && SameValue(fields[i], msg[i].v, back[i].v);
  }

  // ---- messages of another type ----

  lemma {:induction false} SkipsVarint(n: nat, t: seq<Byte>)
    ensures SkipVarint(Varint(n) + t) == Ok((), t)
    decreases n
  {
    if n >= 128 {
      assert (Varint(n) + t)[1..] == Varint(n / 128) + t;
      SkipsVarint(n / 128, t);
    } else {
      assert (Varint(n) + t)[1..] == t;
    }
  }

  lemma SkipsDelimited(b: seq<Byte>, t: seq<Byte>)
    requires |b| < U32
    ensures SkipField(WT_STRING, Delimited(b) + t) == Ok((), t)
  {
    PbRoundTrip.DelimitedRead(b, t);
    PbRoundTrip.SplitAt(b, t);
  }

  /** Every value can be skipped by its wire type, whatever its field is. */
  lemma ValueSkipped(f: Field, v: Value, t: seq<Byte>)
    requires StoredValue(f, v) && EncodeValue(f, v).Bytes? && |EncodeValue(f, v).b| < U32
    ensures SkipField(WireType(f.ltype), EncodeValue(f, v).b + t) == Ok((), t)
  {
    match f.ltype
    case LVarint => SkipsVarint(ToUnsigned64(v.n), t);
    case LUVarint => SkipsVarint(v.n, t);
    case LSVarint =>
      ZigzagRoundTrip(v.n);
      SkipsVarint(Zigzag(v.n), t);
    case LFixed32 | LFixed64 => PbRoundTrip.SplitAt(EncodeValue(f, v).b, t);
    case LBytes | LFixedLengthBytes => SkipsDelimited(v.b, t);
    case LString => SkipsDelimited(StringBytes(v.b), t);
    case LSubmessage => SkipsDelimited(EncodeFrom(f.sub, 0, v.slots).b, t);
  }

  /** A field with that tag and payload is passed over by a descriptor that does not have the tag. */
  lemma ForeignField(other: seq<Field>, st: State, f: Field, w: nat, b: seq<Byte>, t: seq<Byte>)
    requires |st.msg| == |other| && 0 < f.tag < 0x2000_0000 && w < 8
    requires forall j :: 0 <= j < |other| ==> other[j].tag != f.tag
    requires SkipField(w, b + t) == Ok((), t)
    ensures DecodeLoop(other, st, Tag(w, f.tag) + b + t) == DecodeLoop(other, st, t)
  {
    hide Tag, SkipField, DecodeKnown, DecodeTag, DecodeTurn;
    var s := Tag(w, f.tag) + (b + t);
    assert Tag(w, f.tag) + b + t == s;
    ForeignTurn(other, st, f, w, b + t, t);
    assert |s| > 0 by { PbRoundTrip.KeyRead(f.tag, w, b + t); }
  }

  lemma ForeignTurn(other: seq<Field>, st: State, f: Field, w: nat, s: seq<Byte>, t: seq<Byte>)
    requires |st.msg| == |other| && 0 < f.tag < 0x2000_0000 && w < 8
    requires forall j :: 0 <= j < |other| ==> other[j].tag != f.tag
    requires SkipField(w, s) == Ok((), t)
    ensures DecodeTurn(other, st, Tag(w, f.tag) + s) == More(st, t)
  {
    hide Tag, SkipField, DecodeKnown, DecodeTag;
    PbRoundTrip.KeyRead(f.tag, w, s);
    assert IndexOf(other, f.tag) == |other|;
  }

  lemma {:induction false} ForeignTagged(other: seq<Field>, st: State, f: Field, items: seq<Value>, t: seq<Byte>)
    requires |st.msg| == |other| && 0 < f.tag < 0x2000_0000
    requires forall j :: 0 <= j < |other| ==> other[j].tag != f.tag
    requires forall x :: x in items ==> StoredValue(f, x)
    requires EncodeTagged(f, items).Bytes? && |EncodeTagged(f, items).b| < U32
    ensures DecodeLoop(other, st, EncodeTagged(f, items).b + t) == DecodeLoop(other, st, t)
    decreases |items|
  {
    if items == [] {
      assert [] + t == t;
    } else {
      var e, tail := EncodeValue(f, items[0]).b, EncodeTagged(f, items[1..]).b;
      PbRoundTrip.Assoc(EncodeTaggedValue(f, items[0]).b, tail, t);
      ValueSkipped(f, items[0], tail + t);
      ForeignField(other, st, f, WireType(f.ltype), e, tail + t);
      ForeignTagged(other, st, f, items[1..], t);
    }
  }

  lemma ForeignSlot(other: seq<Field>, st: State, f: Field, slot: Slot, t: seq<Byte>)
    requires |st.msg| == |other| && 0 < f.tag < 0x2000_0000 && StoredSlot(f, slot)
    requires forall j :: 0 <= j < |other| ==> other[j].tag != f.tag
    requires EncodeSlot(f, slot).Bytes? && |EncodeSlot(f, slot).b| < U32
    ensures DecodeLoop(other, st, EncodeSlot(f, slot).b + t) == DecodeLoop(other, st, t)
  {
    if !Emits(f, slot) {
      assert [] + t == t;
    } else if !f.htype.Repeated? {
      ValueSkipped(f, slot.v, t);
      ForeignField(other, st, f, WireType(f.ltype), EncodeValue(f, slot.v).b, t);
    } else if Packable(f.ltype) {
      var e := EncodePacked(f, slot.items).b;
      SkipsDelimited(e, t);
      ForeignField(other, st, f, WT_STRING, Delimited(e), t);
    } else {
      ForeignTagged(other, st, f, slot.items, t);
    }
  }

  lemma {:induction false} ForeignFrom(other: seq<Field>, st: State, fields: seq<Field>, i: nat, msg: Message)
    requires |st.msg| == |other| && WellFormed(fields) && Stored(fields, msg) && i <= |fields|
    requires forall j, k :: 0 <= j < |other| && 0 <= k < |fields| ==> other[j].tag != fields[k].tag
    requires EncodeFrom(fields, i, msg).Bytes? && |EncodeFrom(fields, i, msg).b| < U32
    ensures DecodeLoop(other, st, EncodeFrom(fields, i, msg).b) == Ok(st, [])
    decreases |fields| - i
  {
    if i < |fields| {
      assert StoredAt(fields, msg, i) && WellFormedField(fields[i]);
      ForeignSlot(other, st, fields[i], msg[Leader(fields, i)], EncodeFrom(fields, i + 1, msg).b);
      ForeignFrom(other, st, fields, i + 1, msg);
    }
  }

  /**
  A message written by a program with other fields is skipped whole: an older or newer reader without any of
  those tags, and without required fields, accepts it and leaves its struct alone.
  */
  lemma ForeignMessage(other: seq<Field>, dest: Message, fields: seq<Field>, msg: Message)
    requires |dest| == |other| && forall j :: 0 <= j < |other| ==> !other[j].htype.Required?
    requires forall j, k :: 0 <= j < |other| && 0 <= k < |fields| ==> other[j].tag != fields[k].tag
    requires WellFormed(fields) && Stored(fields, msg)
    requires Encode(fields, msg).Bytes? && |Encode(fields, msg).b| < U32
    ensures DecodeInto(other, dest, Encode(fields, msg).b) == Ok(dest, [])
  {
    ForeignFrom(other, State(dest, {}), fields, 0, msg);
    NoneRequired(other, |other|);
  }

  lemma {:induction false} NoneRequired(fields: seq<Field>, i: nat)
    requires i <= |fields| && forall j :: 0 <= j < |fields| ==> !fields[j].htype.Required?
    ensures RequiredBefore(fields, i) == 0
  {
    if i > 0 { NoneRequired(fields, i - 1); }
  }
}
