/**
Decoding undoes encoding.

`RoundTrip` says exactly when: the decoder accepts what the encoder wrote for `msg` if and only
if every string written is NUL-terminated inside its buffer and every length prefix written is
below 2^32 (`Decodable`), and it then rebuilds `Canon(fields, msg)`.
*/
module PbRoundTrip {
  import opened Bytes
  import opened Bits
  import opened PbWire
  import opened PbDescriptor
  import opened PbEncodeSpec
  import opened PbDecodeSpec

  // ---- when the written bytes can be read back ----

  predicate DecodableValue(f: Field, v: Value)
    requires StoredValue(f, v)
    decreases f, 0
  {
    match f.ltype
    case LString => 0 in v.b
    case LSubmessage =>
      var e := EncodeFrom(f.sub, 0, v.slots);
      e.Bytes? && |e.b| < U32 && DecodableFrom(f.sub, 0, v.slots)
    case _ => true
  }

  predicate DecodableItems(f: Field, items: seq<Value>)
    requires forall x :: x in items ==> StoredValue(f, x)
    decreases f, 2
  {
    if Packable(f.ltype) then
      var e := EncodePacked(f, items);
      e.Bytes? && |e.b| < U32
    else AllDecodable(f, items)
  }

  predicate AllDecodable(f: Field, items: seq<Value>)
    requires forall x :: x in items ==> StoredValue(f, x)
    decreases f, 1, |items|
  {
    items != [] ==> DecodableValue(f, items[0]) && AllDecodable(f, items[1..])
  }

  predicate DecodableSlot(f: Field, slot: Slot)
    requires StoredSlot(f, slot)
    decreases f, 3
  {
    if !Emits(f, slot) then true
    else if f.htype.Repeated? then DecodableItems(f, slot.items)
    else DecodableValue(f, slot.v)
  }

  predicate DecodableFrom(fields: seq<Field>, i: nat, msg: Message)
    requires i <= |fields| && Stored(fields, msg)
    decreases fields, 4, |fields| - i
  {
    i < |fields| ==>
      assert StoredAt(fields, msg, i);
      DecodableSlot(fields[i], msg[Leader(fields, i)]) && DecodableFrom(fields, i + 1, msg)
  }

  predicate Decodable(fields: seq<Field>, msg: Message)
    requires Stored(fields, msg)
  {
    DecodableFrom(fields, 0, msg)
  }

  // ---- values ----

  /** Reading a length prefix and its payload back. */
  lemma DelimitedRead(b: seq<Byte>, t: seq<Byte>)
    requires |b| < U64 / 2
    ensures DecodeVarint32(Delimited(b) + t) == if |b| < U32 then Ok(|b|, b + t) else Err
    ensures DecodeDelimited(Delimited(b) + t) == if |b| < U32 then Ok(b, t) else Err
  {
    assert Delimited(b) + t == Varint(|b|) + (b + t);
    if |b| < U32 {
      Varint32RoundTrip(|b|, b + t);
      assert (b + t)[..|b|] == b && (b + t)[|b|..] == t;
    } else {
      Varint32Overflow(|b|, b + t);
    }
  }

  lemma SignedBack(size: nat, n: int)
    requires ValidIntSize(size) && FitsSigned(size, n) && -(U64 / 2) <= n < U64 / 2
    ensures 0 <= ToUnsigned64(n) < U64
    ensures ClampSigned(size, ToUnsigned64(n)) == Some(n)
  {
    if size != 8 {
      if n < 0 {
        assert n + U64 == (U32 - 1) * U32 + (n + U32);
        ModUnique(U32, U32 - 1, n + U32);
      }
    }
  }

  lemma IntegerRoundTrip(f: Field, v: Value, prev: Value, t: seq<Byte>)
    requires f.ltype.LVarint? || f.ltype.LUVarint? || f.ltype.LSVarint?
    requires StoredValue(f, v) && EncodeValue(f, v).Bytes?
    ensures DecodeValue(f, prev, EncodeValue(f, v).b + t) == Ok(v, t)
  {
    hide Stored, EncodeFrom, DecodeInto, DecodeDelimited, Varint64Value, Zigzag, Unzigzag, ToUnsigned64, ToSigned64;
    if f.ltype.LVarint? {
      SignedBack(f.dataSize, v.n);
      VarintRoundTrip(ToUnsigned64(v.n), t);
    } else if f.ltype.LUVarint? {
      VarintRoundTrip(v.n, t);
    } else {
      ZigzagRoundTrip(v.n);
      VarintRoundTrip(Zigzag(v.n), t);
    }
  }

  lemma FixedValueRoundTrip(f: Field, v: Value, prev: Value, t: seq<Byte>)
    requires f.ltype.LFixed32? || f.ltype.LFixed64?
    requires StoredValue(f, v)
    ensures DecodeValue(f, prev, EncodeValue(f, v).b + t) == Ok(v, t)
  {
    WordSizes();
    var count := if f.ltype.LFixed32? then 4 else 8;
    var b := LittleEndian(v.n, count);
    FixedRoundTrip(v.n, count);
    assert (b + t)[..count] == b && (b + t)[count..] == t;
  }

  lemma BytesRoundTrip(f: Field, v: Value, prev: Value, t: seq<Byte>)
    requires f.ltype.LBytes? && f.dataSize <= SIZE_MAX
    requires StoredValue(f, v) && EncodeValue(f, v).Bytes?
    ensures DecodeValue(f, prev, EncodeValue(f, v).b + t) == Ok(v, t)
  {
    DelimitedRead(v.b, t);
    assert (v.b + t)[..|v.b|] == v.b && (v.b + t)[|v.b|..] == t;
  }

  lemma StringRoundTrip(f: Field, v: Value, prev: Value, t: seq<Byte>)
    requires f.ltype.LString? && f.dataSize <= SIZE_MAX
    requires StoredValue(f, v)
    ensures DecodeValue(f, prev, EncodeValue(f, v).b + t) ==
            if 0 in v.b then Ok(Blob(StringBytes(v.b) + [0]), t) else Err
  {
    var b := StringBytes(v.b);
    StringFits(v.b, f.dataSize);
    DelimitedRead(b, t);
    SplitAt(b, t);
  }

  /** The decoder's room check passes exactly when the terminator lies inside the buffer. */
  lemma StringFits(b: seq<Byte>, size: nat)
    requires |b| <= size <= SIZE_MAX && (0 in b || |b| == size)
    ensures var n := |StringBytes(b)|;
            n < U32 && (0 in b <==> !((n + 1) % U32 < n || (n + 1) % U32 > size))
  {
    var n := |StringBytes(b)|;
    if n + 1 < U32 { ModSmall(n + 1, U32); }
  }

  lemma SplitAt<T>(a: seq<T>, b: seq<T>)
    ensures (a + b)[..|a|] == a && (a + b)[|a|..] == b
  {
  }

  lemma Append<T>(done: seq<T>, x: T, tail: seq<T>)
    ensures done + [x] + tail == done + ([x] + tail)
  {
  }

  lemma Assoc<T>(a: seq<T>, b: seq<T>, c: seq<T>)
    ensures (a + b) + c == a + (b + c)
  {
  }

  lemma UpdateTwice<T>(s: seq<T>, i: nat, x: T, y: T)
    requires i < |s|
    ensures s[i := x][i := y] == s[i := y]
  {
  }

  lemma FixedBytesRoundTrip(f: Field, v: Value, prev: Value, t: seq<Byte>)
    requires f.ltype.LFixedLengthBytes? && f.dataSize <= SIZE_MAX
    requires StoredValue(f, v)
    ensures DecodeValue(f, prev, EncodeValue(f, v).b + t) == Ok(v, t)
  {
    DelimitedRead(v.b, t);
    assert (v.b + t)[..|v.b|] == v.b && (v.b + t)[|v.b|..] == t;
    if v.b == [] {
      assert v.b + t == t && Zeros(0) == v.b;
    }
  }

  /** One value of any type, decoded over a fresh slot. */
  lemma {:induction false} ValueRoundTrip(f: Field, v: Value, prev: Value, t: seq<Byte>)
    requires WellFormedField(f) && StoredValue(f, v) && EncodeValue(f, v).Bytes?
    requires |EncodeValue(f, v).b| < U64 / 2
    requires !f.htype.Repeated? ==> prev == DefaultValue(f)
    ensures DecodeValue(f, prev, EncodeValue(f, v).b + t) ==
            if DecodableValue(f, v) then Ok(CanonValue(f, v), t) else Err
    decreases f, 0
  {
    if f.ltype.LSubmessage? {
      var e := EncodeFrom(f.sub, 0, v.slots);
      DelimitedRead(e.b, t);
      if |e.b| < U32 {
        MessageRoundTrip(f.sub, v.slots);
      }
    } else if f.ltype.LFixed32? || f.ltype.LFixed64? {
      FixedValueRoundTrip(f, v, prev, t);
    } else if f.ltype.LVarint? || f.ltype.LUVarint? || f.ltype.LSVarint? {
      IntegerRoundTrip(f, v, prev, t);
    } else if f.ltype.LBytes? {
      BytesRoundTrip(f, v, prev, t);
    } else if f.ltype.LString? {
      StringRoundTrip(f, v, prev, t);
    } else {
      FixedBytesRoundTrip(f, v, prev, t);
    }
  }

  // ---- fields ----

  lemma {:induction false} IndexOfUnique(fields: seq<Field>, i: nat)
    requires i < |fields|
    requires forall j, k :: 0 <= j < k < |fields| ==> fields[j].tag != fields[k].tag
    ensures IndexOf(fields, fields[i].tag) == i
  {
    var k := IndexOf(fields, fields[i].tag);
    if k > i { assert false; }
  }

  /** A field's tag selects the field again. */
  lemma TagTurn(fields: seq<Field>, i: nat, wiretype: nat, st: State, p: seq<Byte>)
    requires WellFormed(fields) && i < |fields| == |st.msg| && wiretype < 8
    ensures DecodeTurn(fields, st, Tag(wiretype, fields[i].tag) + p) ==
            match DecodeKnown(fields, i, wiretype, st, p)
            case Err => Bad
            case Ok(st', rest) => More(st', rest)
  {
    KeyRead(fields[i].tag, wiretype, p);
    IndexOfUnique(fields, i);
  }

  lemma TagStep(fields: seq<Field>, i: nat, wiretype: nat, st: State, p: seq<Byte>)
    requires WellFormed(fields) && i < |fields| == |st.msg| && wiretype < 8
    ensures var k := Leader(fields, i);
            DecodeLoop(fields, st, Tag(wiretype, fields[i].tag) + p) ==
            match DecodeField(fields[i], wiretype, st.msg[k], p)
            case Err => Err
            case Ok(slot, rest) =>
              DecodeLoop(fields, State(st.msg[k := slot], MarkSeen(fields, i, st.seen)), rest)
  {
    TagTurn(fields, i, wiretype, st, p);
  }

  lemma KeyRead(tag: nat, wiretype: nat, p: seq<Byte>)
    requires 0 < tag < 0x2000_0000 && wiretype < 8
    ensures DecodeTag(Tag(wiretype, tag) + p) == Ok(Key(tag, wiretype), p)
    ensures Tag(wiretype, tag) + p != []
  {
    Varint32RoundTrip(8 * tag + wiretype, p);
    ModUnique(8, tag, wiretype);
  }

  /** The state after the chunk of field `i` has been decoded. */
  function AfterField(fields: seq<Field>, i: nat, msg: Message, st: State): (r: State)
    requires i < |fields| && |msg| == |fields| == |st.msg|
    ensures |r.msg| == |fields|
  {
    var k := Leader(fields, i);
    if Emits(fields[i], msg[k]) then
      State(st.msg[k := CanonSlot(fields[i], msg[k])], MarkSeen(fields, i, st.seen))
    else st
  }

  /** `slot` is as `pb_message_set_to_defaults` left it, as far as field `f` looks at it. */
  predicate Fresh(f: Field, slot: Slot)
  {
    if f.htype.OneOf? then slot.Union? else slot == DefaultSlot(f)
  }

  /** A required, optional or oneof field that is written, read back over a fresh slot. */
  lemma {:induction false} SingleFieldRead(f: Field, slot: Slot, prev: Slot, t: seq<Byte>)
    requires WellFormedField(f) && StoredSlot(f, slot) && !f.htype.Repeated? && Emits(f, slot)
    requires EncodeValue(f, slot.v).Bytes? && |EncodeValue(f, slot.v).b| < U64 / 2
    requires Fresh(f, prev)
    ensures DecodeField(f, WireType(f.ltype), prev, EncodeValue(f, slot.v).b + t) ==
            if DecodableSlot(f, slot) then Ok(CanonSlot(f, slot), t) else Err
    decreases f, 1
  {
    ValueRoundTrip(f, slot.v, DefaultValue(f), t);
  }

  lemma {:induction false} SingleRoundTrip(fields: seq<Field>, i: nat, msg: Message, st: State, t: seq<Byte>)
    requires WellFormed(fields) && i < |fields| && |msg| == |fields| && StoredAt(fields, msg, i) && |st.msg| == |fields|
    requires Fresh(fields[i], st.msg[Leader(fields, i)])
    requires var slot := msg[Leader(fields, i)];
             !fields[i].htype.Repeated? && Emits(fields[i], slot) &&
             EncodeSlot(fields[i], slot).Bytes? && |EncodeSlot(fields[i], slot).b| < U64 / 2
    ensures var slot := msg[Leader(fields, i)];
            DecodeLoop(fields, st, EncodeSlot(fields[i], slot).b + t) ==
            if DecodableSlot(fields[i], slot)
            then DecodeLoop(fields, AfterField(fields, i, msg, st), t) else Err
    decreases fields[i], 2
  {
    var f, k := fields[i], Leader(fields, i);
    var slot := msg[k];
    var e := EncodeValue(f, slot.v);
    var w := WireType(f.ltype);
    assert EncodeSlot(f, slot).b + t == Tag(w, f.tag) + (e.b + t);
    TagStep(fields, i, w, st, e.b + t);
    SingleFieldRead(f, slot, st.msg[k], t);
  }

  lemma {:induction false} PackedStep(f: Field, x: Value, done: seq<Value>, t: seq<Byte>)
    requires WellFormedField(f) && f.htype.Repeated? && Packable(f.ltype) && StoredValue(f, x)
    requires EncodeValue(f, x).Bytes? && |EncodeValue(f, x).b| < U64 / 2 && |done| < f.arraySize
    ensures DecodePacked(f, done, EncodeValue(f, x).b + t) == DecodePacked(f, done + [CanonValue(f, x)], t)
    decreases f, 1
  {
    ValueRoundTrip(f, x, Num(0), t);
    assert EncodeValue(f, x).b + t != [];
  }

  /** The packed loop reads every number back in order. */
  lemma {:induction false} PackedRoundTrip(f: Field, items: seq<Value>, done: seq<Value>)
    requires WellFormedField(f) && f.htype.Repeated? && Packable(f.ltype)
    requires forall x :: x in items ==> StoredValue(f, x)
    requires EncodePacked(f, items).Bytes? && |EncodePacked(f, items).b| < U64 / 2
    requires |done| + |items| <= f.arraySize
    ensures DecodePacked(f, done, EncodePacked(f, items).b) == Ok(done + CanonItems(f, items), [])
    decreases f, 2, |items|
  {
    if items == [] {
      assert done + [] == done;
    } else {
      var x := CanonValue(f, items[0]);
      PackedStep(f, items[0], done, EncodePacked(f, items[1..]).b);
      PackedRoundTrip(f, items[1..], done + [x]);
      Append(done, x, CanonItems(f, items[1..]));
    }
  }

  /** One tagged item is appended to the items before it. */
  lemma {:induction false} TaggedItemRead(fields: seq<Field>, i: nat, x: Value, done: seq<Value>, st: State,
                                          rest: seq<Byte>)
    requires WellFormed(fields) && i < |fields| && |st.msg| == |fields|
    requires fields[i].htype.Repeated? && !Packable(fields[i].ltype) && st.msg[i] == Many(done)
    requires StoredValue(fields[i], x) && EncodeTaggedValue(fields[i], x).Bytes?
    requires |EncodeTaggedValue(fields[i], x).b| < U64 / 2 && |done| < fields[i].arraySize
    ensures DecodeLoop(fields, st, EncodeTaggedValue(fields[i], x).b + rest) ==
            if DecodableValue(fields[i], x)
            then DecodeLoop(fields, st.(msg := st.msg[i := Many(done + [CanonValue(fields[i], x)])]), rest) else Err
    decreases fields[i], 1
  {
    var f := fields[i];
    var e, w := EncodeValue(f, x).b, WireType(f.ltype);
    assert Leader(fields, i) == i;
    assert EncodeTaggedValue(f, x).b + rest == Tag(w, f.tag) + (e + rest);
    TagStep(fields, i, w, st, e + rest);
    ValueRoundTrip(f, x, DefaultValue(f), rest);
    assert MarkSeen(fields, i, st.seen) == st.seen;
  }

  /** An array whose items carry their own tags, from the item after `done` on. */
  lemma {:induction false} TaggedRoundTrip(fields: seq<Field>, i: nat, items: seq<Value>, done: seq<Value>,
                                           st: State, t: seq<Byte>)
    requires WellFormed(fields) && i < |fields| && |st.msg| == |fields|
    requires fields[i].htype.Repeated? && !Packable(fields[i].ltype) && st.msg[i] == Many(done)
    requires forall x :: x in items ==> StoredValue(fields[i], x)
    requires EncodeTagged(fields[i], items).Bytes? && |EncodeTagged(fields[i], items).b| < U64 / 2
    requires |done| + |items| <= fields[i].arraySize
    ensures DecodeLoop(fields, st, EncodeTagged(fields[i], items).b + t) ==
            if AllDecodable(fields[i], items)
            then DecodeLoop(fields, st.(msg := st.msg[i := Many(done + CanonItems(fields[i], items))]), t) else Err
    decreases fields[i], 2, |items|
  {
    var f := fields[i];
    if items == [] {
      assert EncodeTagged(f, items).b + t == t;
      assert done + [] == done && st.msg[i := Many(done)] == st.msg;
    } else {
      var x, tail := items[0], items[1..];
      var cx, ctail := CanonValue(f, x), CanonItems(f, tail);
      Assoc(EncodeTaggedValue(f, x).b, EncodeTagged(f, tail).b, t);
      TaggedItemRead(fields, i, x, done, st, EncodeTagged(f, tail).b + t);
      if DecodableValue(f, x) {
        var st' := st.(msg := st.msg[i := Many(done + [cx])]);
        TaggedRoundTrip(fields, i, tail, done + [cx], st', t);
        Append(done, cx, ctail);
        UpdateTwice(st.msg, i, Many(done + [cx]), Many(done + [cx] + ctail));
      }
    }
  }

  /** A packed array read back over an empty one. */
  lemma {:induction false} PackedFieldRead(f: Field, items: seq<Value>, t: seq<Byte>)
    requires WellFormedField(f) && f.htype.Repeated? && Packable(f.ltype) && |items| <= f.arraySize
    requires forall x :: x in items ==> StoredValue(f, x)
    requires EncodePacked(f, items).Bytes? && |EncodePacked(f, items).b| < U64 / 2
    ensures DecodeField(f, WT_STRING, Many([]), Delimited(EncodePacked(f, items).b) + t) ==
            if DecodableItems(f, items) then Ok(Many(CanonItems(f, items)), t) else Err
    decreases f, 3
  {
    var e := EncodePacked(f, items).b;
    DelimitedRead(e, t);
    if |e| < U32 {
      PackedRoundTrip(f, items, []);
      assert [] + CanonItems(f, items) == CanonItems(f, items);
    }
  }

  lemma {:induction false} ArrayRoundTrip(fields: seq<Field>, i: nat, msg: Message, st: State, t: seq<Byte>)
    requires WellFormed(fields) && i < |fields| && |msg| == |fields| && StoredAt(fields, msg, i) && |st.msg| == |fields|
    requires fields[i].htype.Repeated? && Fresh(fields[i], st.msg[i]) && Emits(fields[i], msg[i])
    requires EncodeSlot(fields[i], msg[i]).Bytes? && |EncodeSlot(fields[i], msg[i]).b| < U64 / 2
    ensures DecodeLoop(fields, st, EncodeSlot(fields[i], msg[i]).b + t) ==
            if DecodableSlot(fields[i], msg[i])
            then DecodeLoop(fields, AfterField(fields, i, msg, st), t) else Err
    decreases fields[i], 4
  {
    var f, items := fields[i], msg[i].items;
    assert Leader(fields, i) == i && EncodeSlot(f, msg[i]) == EncodeArray(f, items);
    var st' := st.(msg := st.msg[i := Many(CanonItems(f, items))]);
    assert AfterField(fields, i, msg, st) == st';
    if Packable(f.ltype) {
      var e := EncodePacked(f, items).b;
      assert EncodeSlot(f, msg[i]).b + t == Tag(WT_STRING, f.tag) + (Delimited(e) + t);
      TagStep(fields, i, WT_STRING, st, Delimited(e) + t);
      PackedFieldRead(f, items, t);
    } else {
      TaggedRoundTrip(fields, i, items, [], st, t);
      assert [] + CanonItems(f, items) == CanonItems(f, items);
    }
  }

  /** The chunk of field `i`, written or not. */
  lemma {:induction false} FieldRoundTrip(fields: seq<Field>, i: nat, msg: Message, st: State, t: seq<Byte>)
    requires WellFormed(fields) && i < |fields| && |msg| == |fields| && StoredAt(fields, msg, i) && |st.msg| == |fields|
    requires Fresh(fields[i], st.msg[Leader(fields, i)])
    requires var e := EncodeSlot(fields[i], msg[Leader(fields, i)]); e.Bytes? && |e.b| < U64 / 2
    ensures var slot := msg[Leader(fields, i)];
            DecodeLoop(fields, st, EncodeSlot(fields[i], slot).b + t) ==
            if DecodableSlot(fields[i], slot)
            then DecodeLoop(fields, AfterField(fields, i, msg, st), t) else Err
    decreases fields[i], 5
  {
    var slot := msg[Leader(fields, i)];
    if !Emits(fields[i], slot) {
      assert [] + t == t;
    } else if fields[i].htype.Repeated? {
      ArrayRoundTrip(fields, i, msg, st, t);
    } else {
      SingleRoundTrip(fields, i, msg, st, t);
    }
  }

  // ---- messages ----

  /** The state after the chunks of fields `i`, `i + 1`, ... have been decoded. */
  function AfterFields(fields: seq<Field>, i: nat, msg: Message, st: State): (r: State)
    requires i <= |fields| && |msg| == |fields| == |st.msg|
    ensures |r.msg| == |fields|
    decreases |fields| - i
  {
    if i == |fields| then st else AfterFields(fields, i + 1, msg, AfterField(fields, i, msg, st))
  }

  /** Fields from `i` on have not been touched. */
  predicate FreshFrom(fields: seq<Field>, i: nat, msg: Message)
    requires i <= |fields| == |msg|
  {
    forall j :: i <= j < |fields| ==> FreshAt(fields, j, msg)
  }

  predicate FreshAt(fields: seq<Field>, j: nat, msg: Message)
    requires j < |fields| == |msg|
  {
    Fresh(fields[j], msg[Leader(fields, j)])
  }

  lemma FreshAfter(fields: seq<Field>, i: nat, msg: Message, st: State)
    requires i < |fields| && Stored(fields, msg) && |st.msg| == |fields|
    requires FreshFrom(fields, i, st.msg)
    ensures FreshFrom(fields, i + 1, AfterField(fields, i, msg, st).msg)
  {
    var st' := AfterField(fields, i, msg, st);
    forall j | i + 1 <= j < |fields| ensures FreshAt(fields, j, st'.msg) {
      assert FreshAt(fields, j, st.msg);
      if Leader(fields, j) == Leader(fields, i) { SharedLeader(fields, i, j); }
    }
  }

  lemma {:induction false} LoopRoundTrip(fields: seq<Field>, i: nat, msg: Message, st: State)
    requires WellFormed(fields) && i <= |fields| && Stored(fields, msg) && |st.msg| == |fields|
    requires FreshFrom(fields, i, st.msg)
    requires EncodeFrom(fields, i, msg).Bytes? && |EncodeFrom(fields, i, msg).b| < U64 / 2
    ensures DecodeLoop(fields, st, EncodeFrom(fields, i, msg).b) ==
            if DecodableFrom(fields, i, msg) then Ok(AfterFields(fields, i, msg, st), []) else Err
    decreases fields, 5, |fields| - i
  {
    if i < |fields| {
      assert StoredAt(fields, msg, i) && FreshAt(fields, i, st.msg);
      FieldRoundTrip(fields, i, msg, st, EncodeFrom(fields, i + 1, msg).b);
      FreshAfter(fields, i, msg, st);
      LoopRoundTrip(fields, i + 1, msg, AfterField(fields, i, msg, st));
    }
  }

  lemma {:induction false} MessageRoundTrip(fields: seq<Field>, msg: Message)
    requires WellFormed(fields) && Stored(fields, msg)
    requires Encode(fields, msg).Bytes? && |Encode(fields, msg).b| < U64 / 2
    ensures DecodeInto(fields, Default(fields), Encode(fields, msg).b) ==
            if Decodable(fields, msg) then Ok(Canon(fields, msg), []) else Err
    decreases fields, 6
  {
    var st := State(Default(fields), {});
    forall j | 0 <= j < |fields| ensures FreshAt(fields, j, st.msg) {
      var k := Leader(fields, j);
      assert st.msg[k] == DefaultSlot(fields[k]);
    }
    LoopRoundTrip(fields, 0, msg, st);
    AfterFieldsSeen(fields, 0, msg, st);
    AfterFieldsCanon(fields, msg);
  }

  /** Every required field is written, so every one that is tracked is seen. */
  lemma {:induction false} AfterFieldsSeen(fields: seq<Field>, i: nat, msg: Message, st: State)
    requires i <= |fields| && |msg| == |fields| == |st.msg|
    requires forall k: nat :: k < RequiredBefore(fields, i) && k < MAX_REQUIRED_FIELDS ==> k in st.seen
    ensures AllRequiredSeen(fields, AfterFields(fields, i, msg, st).seen)
    decreases |fields| - i
  {
    if i < |fields| {
      AfterFieldsSeen(fields, i + 1, msg, AfterField(fields, i, msg, st));
    }
  }

  /** What is in slot `k` once fields `i` and later have been decoded over `slot`. */
  function SlotAfter(fields: seq<Field>, k: nat, i: nat, msg: Message, slot: Slot): Slot
    requires k < |fields| && i <= |fields| == |msg|
    decreases |fields| - i
  {
    if i == |fields| then slot
    else SlotAfter(fields, k, i + 1, msg,
      if Leader(fields, i) == k && Emits(fields[i], msg[k]) then CanonSlot(fields[i], msg[k]) else slot)
  }

  lemma {:induction false} AfterFieldsSlot(fields: seq<Field>, k: nat, i: nat, msg: Message, st: State)
    requires k < |fields| && i <= |fields| == |msg| == |st.msg|
    ensures AfterFields(fields, i, msg, st).msg[k] == SlotAfter(fields, k, i, msg, st.msg[k])
    decreases |fields| - i
  {
    if i < |fields| { AfterFieldsSlot(fields, k, i + 1, msg, AfterField(fields, i, msg, st)); }
  }

  /** A slot none of whose fields is written keeps what it had. */
  lemma {:induction false} SlotUntouched(fields: seq<Field>, k: nat, i: nat, msg: Message, slot: Slot)
    requires k < |fields| && i <= |fields| == |msg|
    requires forall j :: i <= j < |fields| && Leader(fields, j) == k ==> !Emits(fields[j], msg[k])
    ensures SlotAfter(fields, k, i, msg, slot) == slot
    decreases |fields| - i
  {
    if i < |fields| { SlotUntouched(fields, k, i + 1, msg, slot); }
  }

  /** A slot written by exactly one field ends with that field's value. */
  lemma {:induction false} SlotWrittenOnce(fields: seq<Field>, k: nat, i: nat, s: nat, msg: Message, slot: Slot)
    requires k < |fields| && i <= s < |fields| == |msg| && Leader(fields, s) == k && Emits(fields[s], msg[k])
    requires forall j :: i <= j < |fields| && j != s && Leader(fields, j) == k ==> !Emits(fields[j], msg[k])
    ensures SlotAfter(fields, k, i, msg, slot) == CanonSlot(fields[s], msg[k])
    decreases |fields| - i
  {
    if i == s {
      SlotUntouched(fields, k, i + 1, msg, CanonSlot(fields[s], msg[k]));
    } else {
      SlotWrittenOnce(fields, k, i + 1, s, msg, slot);
    }
  }

  /** A field that is not written reads back as its default, which is what it counts as. */
  lemma UnwrittenIsDefault(f: Field, slot: Slot)
    requires StoredSlot(f, slot) && !f.htype.OneOf? && !Emits(f, slot)
    ensures CanonSlot(f, slot) == DefaultSlot(f)
  {
  }

  /** Slot `k`, which is not a union member's, is written by field `k` or not at all. */
  lemma PlainSlotAfter(fields: seq<Field>, k: nat, msg: Message)
    requires Stored(fields, msg) && k < |fields| && !InUnion(fields, k) && !fields[k].htype.OneOf?
    ensures SlotAfter(fields, k, 0, msg, DefaultSlot(fields[k])) == CanonSlot(fields[k], msg[k])
  {
    forall j | 0 <= j < |fields| && j != k ensures Leader(fields, j) != k {
      if Leader(fields, j) == k { SharedLeader(fields, j, k); }
    }
    assert Leader(fields, k) == k && StoredAt(fields, msg, k);
    if Emits(fields[k], msg[k]) {
      SlotWrittenOnce(fields, k, 0, k, msg, DefaultSlot(fields[k]));
    } else {
      UnwrittenIsDefault(fields[k], msg[k]);
      SlotUntouched(fields, k, 0, msg, DefaultSlot(fields[k]));
    }
  }

  lemma UnionSlotAfter(fields: seq<Field>, k: nat, msg: Message)
    requires WellFormed(fields) && Stored(fields, msg)
    requires k < |fields| && !InUnion(fields, k) && fields[k].htype.OneOf?
    ensures SlotAfter(fields, k, 0, msg, DefaultSlot(fields[k])) == Canon(fields, msg)[k]
  {
    assert Leader(fields, k) == k && StoredAt(fields, msg, k);
    assert StoredSlot(fields[k], msg[k]) && msg[k].Union?;
    var s := Selected(fields, k, k, msg[k].which);
    forall j | 0 <= j < |fields| && Leader(fields, j) == k && Emits(fields[j], msg[k])
      ensures s < |fields| && j == s
    {
      assert fields[j].htype.OneOf? by {
        if j != k { SharedLeader(fields, j, k); }
      }
      assert fields[j].tag == msg[k].which;
    }
    if s < |fields| {
      SlotWrittenOnce(fields, k, 0, s, msg, DefaultSlot(fields[k]));
    } else {
      SlotUntouched(fields, k, 0, msg, DefaultSlot(fields[k]));
    }
  }

  lemma AfterFieldsCanon(fields: seq<Field>, msg: Message)
    requires WellFormed(fields) && Stored(fields, msg)
    ensures AfterFields(fields, 0, msg, State(Default(fields), {})).msg == Canon(fields, msg)
  {
    var st := State(Default(fields), {});
    var r := AfterFields(fields, 0, msg, st).msg;
    forall k | 0 <= k < |fields| ensures r[k] == Canon(fields, msg)[k] {
      AfterFieldsSlot(fields, k, 0, msg, st);
      if InUnion(fields, k) {
        assert forall j :: 0 <= j < |fields| ==> Leader(fields, j) != k;
        SlotUntouched(fields, k, 0, msg, Shared);
      } else if fields[k].htype.OneOf? {
        UnionSlotAfter(fields, k, msg);
      } else {
        PlainSlotAfter(fields, k, msg);
      }
    }
  }

  /**
  The law the codec is for. Whatever `pb_encode` wrote, `pb_decode` reads back the observable part
  of the message if and only if the message is `Decodable`; otherwise it reports an error.
  (No object of 2^63 bytes or more exists in C.)
  */
  lemma RoundTrip(fields: seq<Field>, msg: Message)
    requires WellFormed(fields) && Stored(fields, msg)
    requires Encode(fields, msg).Bytes? && |Encode(fields, msg).b| < U64 / 2
    ensures Decode(fields, Encode(fields, msg).b) ==
            if Decodable(fields, msg) then Ok(Canon(fields, msg), []) else Err
  {
    MessageRoundTrip(fields, msg);
  }
}
