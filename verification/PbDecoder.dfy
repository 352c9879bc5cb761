/**
The message decoder of `pb_decode.c`, reading from a stream into a struct. Every method is proved
to succeed exactly when `PbDecodeSpec` does, to leave the struct it describes and to stop where it
stops. What a failed call leaves half-written in the struct is not described.
*/
module PbDecoder {
  import opened Bytes
  import opened PbWire
  import opened PbDescriptor
  import opened PbDecodeSpec
  import opened PbIterator
  import opened PbIStream
  import PbRequired
  import PbEncodeSpec

  /** The memory of a message struct; the slots of later union members hold nothing of their own. */
  class Struct {
    var slots: seq<Slot>

    constructor (slots: seq<Slot>)
      ensures this.slots == slots
    {
      this.slots := slots;
    }
  }

  predicate StructOf(fields: seq<Field>, slots: seq<Slot>)
  {
    && |slots| == |fields|
    && forall i :: 0 <= i < |fields| && InUnion(fields, i) ==> slots[i] == Shared
  }

  function Uninitialised(fields: seq<Field>): (slots: seq<Slot>)
    ensures StructOf(fields, slots)
  {
    seq(|fields|, _ => Shared)
  }

  // ---- defaults ----

  /** `pb_message_set_to_defaults`: whatever the struct held, it now holds the defaults. */
  method SetToDefaults(fields: seq<Field>, dest: Struct)
    requires StructOf(fields, dest.slots)
    modifies dest
    ensures dest.slots == Default(fields)
    decreases fields, 1
  {
    hide Default, DefaultSlot, StructOf, DefaultsUpTo;
    var iter := new FieldIter(fields);
    DefaultsEnds(fields, dest.slots);
    if fields == [] {
      return;
    }
    var more := true;
    ghost var i := 0;
    while more
      invariant iter.Valid() && iter.fields == fields && fresh(iter)
      invariant if more then iter.pos == i < |fields| else i == |fields|
      invariant StructOf(fields, dest.slots) && DefaultsUpTo(fields, dest.slots, i)
      decreases |fields| - i
    {
      DefaultsMore(fields, dest.slots, i);
      SetFieldToDefault(iter, dest);
      more := iter.Next();
      i := i + 1;
    }
    DefaultsEnds(fields, dest.slots);
  }

  /** The slots below `i` hold their defaults. */
  predicate DefaultsUpTo(fields: seq<Field>, slots: seq<Slot>, i: nat)
  {
    i <= |fields| == |slots| && forall k :: 0 <= k < i ==> slots[k] == Default(fields)[k]
  }

  lemma DefaultsEnds(fields: seq<Field>, slots: seq<Slot>)
    requires StructOf(fields, slots)
    ensures |slots| == |fields| && DefaultsUpTo(fields, slots, 0)
    ensures DefaultsUpTo(fields, slots, |fields|) ==> slots == Default(fields)
  {
  }

  /** Setting the slot of field `i`, its own or its union's. */
  lemma DefaultsMore(fields: seq<Field>, slots: seq<Slot>, i: nat)
    requires StructOf(fields, slots) && i < |fields| && DefaultsUpTo(fields, slots, i)
    ensures var k := Leader(fields, i);
            && |slots| == |fields| && (k != i ==> slots[k] == DefaultSlot(fields[k]))
            && StructOf(fields, slots[k := DefaultSlot(fields[k])])
            && DefaultsUpTo(fields, slots[k := DefaultSlot(fields[k])], i + 1)
  {
    hide DefaultSlot;
    var k := Leader(fields, i);
    if k < i { assert slots[k] == Default(fields)[k]; }
  }

  /** `pb_field_set_to_default`; for a later union member it clears the shared `which_` tag once more. */
  method SetFieldToDefault(iter: FieldIter, dest: Struct)
    requires iter.Valid() && iter.pos < |iter.fields| == |dest.slots|
    requires iter.slot != iter.pos ==> dest.slots[iter.slot] == DefaultSlot(iter.fields[iter.slot])
    modifies dest
    ensures dest.slots == old(dest.slots)[iter.slot := DefaultSlot(iter.fields[iter.slot])]
    decreases iter.fields[iter.pos], 2
  {
    var f := iter.fields[iter.pos];
    if f.htype.Repeated? {
      dest.slots := dest.slots[iter.slot := Many([])];
    } else if f.htype.OneOf? {
      dest.slots := dest.slots[iter.slot := Union(0, Num(0))];
    } else {
      var v := Num(0);
      if f.ltype.LSubmessage? {
        var sub := new Struct(Uninitialised(f.sub));
        SetToDefaults(f.sub, sub);
        v := Msg(sub.slots);
      } else if f.init.Some? {
        v := f.init.value;
      } else {
        v := Zeroed(f);
      }
      dest.slots := dest.slots[iter.slot :=
        if f.htype.Optional? && f.sizeOffset != 0 then Flagged(false, v) else Plain(v)];
    }
  }

  /** `memset(pData, 0, data_size)` as a value. */
  function Zeroed(f: Field): Value
  {
    match f.ltype
    case LBytes => Blob([])
    case LString => Blob(if f.dataSize == 0 then [] else [0])
    case LFixedLengthBytes => Blob(Zeros(f.dataSize))
    case _ => Num(0)
  }

  // ---- values ----

  /** A C cast to a signed type of `size` bytes. */
  function CastSigned(size: nat, n: int): int
  {
    if size == 1 then (n + 0x80) % 0x100 - 0x80
    else if size == 2 then (n + 0x8000) % U16 - 0x8000
    else (n + U32 / 2) % U32 - U32 / 2
  }

  function CastUnsigned(size: nat, n: nat): nat
  {
    if size == 1 then n % 0x100 else if size == 2 then n % U16 else n % U32
  }

  /** "Cast to the proper field size, while checking for overflows": the cast loses nothing. */
  method ClampToSigned(size: nat, svalue: int) returns (ok: bool, clamped: int)
    ensures ok <==> ValidIntSize(size) && FitsSigned(size, svalue)
    ensures ok ==> clamped == svalue
  {
    if size == 8 {
      clamped := svalue;
    } else if size == 4 || size == 2 || size == 1 {
      clamped := CastSigned(size, svalue);
    } else {
      // "invalid data_size"
      return false, 0;
    }
    // "integer too large"
    ok := clamped == svalue;
  }

  method ClampToUnsigned(size: nat, value: nat) returns (ok: bool, clamped: nat)
    ensures ok <==> ClampUnsigned(size, value).Some?
    ensures ok ==> clamped == value
  {
    if size == 8 {
      clamped := value;
    } else if size == 4 || size == 2 || size == 1 {
      clamped := CastUnsigned(size, value);
    } else {
      return false, 0;
    }
    ok := clamped == value;
  }

  /** `pb_dec_varint`: fields of up to 32 bits are cast to `int32_t` first. */
  method DecVarint(s: IStream, f: Field) returns (ok: bool, v: Value)
    requires s.Valid() && f.ltype.LVarint?
    modifies s
    ensures Decoded(s, f, Num(0), old(s.Rest()), ok, v)
  {
    v := Num(0);
    ghost var r := Varint64Value(s.Rest());
    var value, clamped;
    ok, value := ReadVarint(s);
    if !ok { return; }
    ok, clamped := ClampToSigned(f.dataSize, if f.dataSize == 8 then ToSigned64(value) else ToSigned32(value));
    v := Num(clamped);
  }

  /** `pb_dec_uvarint`. */
  method DecUVarint(s: IStream, f: Field) returns (ok: bool, v: Value)
    requires s.Valid() && f.ltype.LUVarint?
    modifies s
    ensures Decoded(s, f, Num(0), old(s.Rest()), ok, v)
  {
    v := Num(0);
    ghost var r := Varint64Value(s.Rest());
    var value, clamped;
    ok, value := ReadVarint(s);
    if !ok { return; }
    ok, clamped := ClampToUnsigned(f.dataSize, value);
    v := Num(clamped);
  }

  /** `pb_dec_svarint`. */
  method DecSVarint(s: IStream, f: Field) returns (ok: bool, v: Value)
    requires s.Valid() && f.ltype.LSVarint?
    modifies s
    ensures Decoded(s, f, Num(0), old(s.Rest()), ok, v)
  {
    v := Num(0);
    ghost var r := Varint64Value(s.Rest());
    var value, clamped;
    ok, value := ReadSVarint(s);
    if !ok { return; }
    ok, clamped := ClampToSigned(f.dataSize, value);
    v := Num(clamped);
  }

  /** What a value decoder did: it agrees with `DecodeValue` over the previous value `prev`. */
  twostate predicate Decoded(s: IStream, f: Field, prev: Value, rest: seq<Byte>, ok: bool, v: Value)
    requires old(s.Valid()) && rest == old(s.Rest())
    reads s, s.buf
  {
    var r := DecodeValue(f, prev, rest);
    Took(s, r, ok) && (ok ==> v == r.value)
  }

  /** `pb_dec_bytes`. */
  method DecBytes(s: IStream, f: Field) returns (ok: bool, v: Value)
    requires s.Valid() && f.ltype.LBytes?
    modifies s
    ensures Decoded(s, f, Num(0), old(s.Rest()), ok, v)
  {
    v := Num(0);
    var size;
    ok, size := ReadVarint32(s);
    if !ok { return; }
    if size > SIZE_MAX || size + BYTES_HEADER > f.dataSize {
      // "bytes overflow"
      return false, v;
    }
    var data;
    ok, data := s.Read(size);
    v := Blob(data);
  }

  lemma StringValue(f: Field, prev: Value, s: seq<Byte>)
    requires f.ltype.LString?
    ensures var d := DecodeVarint32(s);
            DecodeValue(f, prev, s) ==
            if d.Err? then Err
            else
              var alloc := (d.value + 1) % U32;
              if alloc < d.value || alloc > f.dataSize || |d.rest| < d.value then Err
              else Ok(Blob(d.rest[..d.value] + [0]), d.rest[d.value..])
  {
  }

  /** `pb_dec_string`. */
  method DecString(s: IStream, f: Field) returns (ok: bool, v: Value)
    requires s.Valid() && f.ltype.LString?
    modifies s
    ensures Decoded(s, f, Num(0), old(s.Rest()), ok, v)
  {
    hide DecodeValue, DecodeVarint32;
    StringValue(f, Num(0), s.Rest());
    v := Num(0);
    var size;
    ok, size := ReadVarint32(s);
    if !ok { return; }
    var allocSize := (size + 1) % U32;
    if allocSize < size || allocSize > f.dataSize {
      // "size too large", "string overflow"
      return false, v;
    }
    var data;
    ok, data := s.Read(size);
    v := Blob(data + [0]);
  }

  /** `pb_dec_fixed_length_bytes`. */
  method DecFixedLengthBytes(s: IStream, f: Field) returns (ok: bool, v: Value)
    requires s.Valid() && f.ltype.LFixedLengthBytes?
    modifies s
    ensures Decoded(s, f, Num(0), old(s.Rest()), ok, v)
  {
    v := Num(0);
    var size;
    ok, size := ReadVarint32(s);
    if !ok { return; }
    if size > SIZE_MAX {
      // "bytes overflow"
      return false, v;
    }
    if size == 0 {
      return true, Blob(Zeros(f.dataSize));
    }
    if size != f.dataSize {
      // "incorrect fixed length bytes size"
      return false, v;
    }
    var data;
    ok, data := s.Read(size);
    v := Blob(data);
  }

  /** The struct a submessage is decoded over: fresh defaults for array entries, what is there otherwise. */
  function SubmessageStart(f: Field, prev: Value): (m: Message)
    ensures |m| == |f.sub|
  {
    if f.htype.Repeated? then Default(f.sub) else PrevMessage(f, prev)
  }

  lemma SubmessageValue(f: Field, prev: Value, s: seq<Byte>)
    requires f.ltype.LSubmessage?
    ensures var d := DecodeDelimited(s);
            DecodeValue(f, prev, s) ==
            if d.Err? then Err
            else var m := DecodeInto(f.sub, SubmessageStart(f, prev), d.value);
                 if m.Err? then Err else Ok(Msg(m.value), d.rest)
  {
  }

  /** The call of `pb_decode` or `pb_decode_noinit` in `pb_dec_submessage`. */
  method DecodeBody(sub: IStream, f: Field, prev: Value) returns (ok: bool, v: Value)
    requires sub.Valid() && WellFormed(f.sub)
    modifies sub
    ensures sub.Valid() && sub.End() <= old(sub.End()) && (ok ==> sub.End() == old(sub.End()))
    ensures var m := DecodeInto(f.sub, SubmessageStart(f, prev), old(sub.Rest()));
            (ok <==> m.Ok?) && (ok ==> v == Msg(m.value))
    decreases f, 0
  {
    var dest := new Struct(if f.htype.Repeated? then Uninitialised(f.sub) else PrevMessage(f, prev));
    if f.htype.Repeated? {
      ok := PbDecode(sub, f.sub, dest);
    } else {
      ok := PbDecodeNoinit(sub, f.sub, dest);
    }
    v := Msg(dest.slots);
  }

  /** `pb_dec_submessage`. */
  method DecSubmessage(s: IStream, f: Field, prev: Value) returns (ok: bool, v: Value)
    requires s.Valid() && f.ltype.LSubmessage? && WellFormed(f.sub)
    modifies s
    ensures Decoded(s, f, prev, old(s.Rest()), ok, v)
    decreases f, 1
  {
    hide DecodeInto, DecodeValue, DecodeDelimited, WellFormed, SubmessageStart;
    v := Num(0);
    SubmessageValue(f, prev, s.Rest());
    var sub;
    ok, sub := MakeSubstream(s);
    if !ok { return; }
    ok, v := DecodeBody(sub, f, prev);
    CloseSubstream(s, sub);
  }

  /** The `pb_dec_*` function of the field type. */
  method DecValue(s: IStream, f: Field, prev: Value) returns (ok: bool, v: Value)
    requires s.Valid() && WellFormed(f.sub)
    modifies s
    ensures Decoded(s, f, prev, old(s.Rest()), ok, v)
    decreases f, 2
  {
    hide DecodeInto, DecodeDelimited, DecodeVarint32, Varint64Value, WellFormed;
    match f.ltype
    case LVarint => ok, v := DecVarint(s, f);
    case LUVarint => ok, v := DecUVarint(s, f);
    case LSVarint => ok, v := DecSVarint(s, f);
    case LFixed32 =>
      var n;
      ok, n := ReadFixed(s, 4);
      v := Num(n);
    case LFixed64 =>
      var n;
      ok, n := ReadFixed(s, 8);
      v := Num(n);
    case LBytes => ok, v := DecBytes(s, f);
    case LString => ok, v := DecString(s, f);
    case LFixedLengthBytes => ok, v := DecFixedLengthBytes(s, f);
    case LSubmessage => ok, v := DecSubmessage(s, f, prev);
  }

  // ---- fields ----

  /** The packed-array loop of `decode_static_field`. */
  method DecPacked(sub: IStream, f: Field, items: seq<Value>) returns (ok: bool, all: seq<Value>)
    requires sub.Valid() && Packable(f.ltype) && WellFormed(f.sub)
    modifies sub
    ensures sub.Valid() && sub.End() <= old(sub.End())
    ensures var r := DecodePacked(f, items, old(sub.Rest()));
            (ok <==> r.Ok?) && (ok ==> all == r.value && sub.End() == old(sub.End()))
    decreases f, 3
  {
    all := items;
    var status := true;
    while sub.bytesLeft > 0 && |all| < f.arraySize
      invariant sub.Valid() && sub.End() == old(sub.End())
      invariant DecodePacked(f, items, old(sub.Rest())) == DecodePacked(f, all, sub.Rest())
      decreases sub.bytesLeft
    {
      var v;
      status, v := DecValue(sub, f, Num(0));
      if !status { break; }
      all := all + [v];
    }
    // "array overflow" if bytes are left
    ok := status && sub.bytesLeft == 0;
  }

  /** `decode_static_field` on the field the iterator stands at. */
  method DecodeStaticField(s: IStream, wiretype: nat, iter: FieldIter, dest: Struct) returns (ok: bool)
    requires s.Valid() && iter.Valid() && iter.pos < |iter.fields| == |dest.slots| && WellFormed(iter.fields)
    modifies s, dest
    ensures var r := DecodeField(iter.fields[iter.pos], wiretype, old(dest.slots)[iter.slot], old(s.Rest()));
            Took(s, r, ok) && (ok ==> dest.slots == old(dest.slots)[iter.slot := r.value])
    ensures |dest.slots| == old(|dest.slots|)
    decreases iter.fields[iter.pos], 6
  {
    var f, k := iter.fields[iter.pos], iter.slot;
    var slot := dest.slots[k];
    match f.htype
    case Required =>
      var v;
      ok, v := DecValue(s, f, PrevValue(f, slot));
      dest.slots := dest.slots[k := Plain(v)];
    case Optional =>
      var v;
      ok, v := DecValue(s, f, PrevValue(f, slot));
      dest.slots := dest.slots[k := if f.sizeOffset != 0 then Flagged(true, v) else Plain(v)];
    case Repeated =>
      var items;
      ok, items := DecodeRepeated(s, wiretype, f, slot);
      dest.slots := dest.slots[k := Many(items)];
    case OneOf =>
      // a submessage member starts from its defaults
      var v;
      ok, v := DecValue(s, f, DefaultValue(f));
      dest.slots := dest.slots[k := Union(f.tag, v)];
  }

  /** The `PB_HTYPE_REPEATED` case of `decode_static_field`. */
  method DecodeRepeated(s: IStream, wiretype: nat, f: Field, slot: Slot) returns (ok: bool, items: seq<Value>)
    requires s.Valid() && WellFormed(f.sub) && f.htype.Repeated?
    modifies s
    ensures var r := DecodeField(f, wiretype, slot, old(s.Rest()));
            Took(s, r, ok) && (ok ==> Many(items) == r.value)
    decreases f, 5
  {
    items := PrevItems(slot);
    if wiretype == PbEncodeSpec.WT_STRING && Packable(f.ltype) {
      ok, items := DecodePackedArray(s, f, items);
    } else {
      if |items| >= f.arraySize {
        // "array overflow"
        return false, items;
      }
      var v;
      ok, v := DecValue(s, f, DefaultValue(f));
      items := items + [v];
    }
  }

  method DecodePackedArray(s: IStream, f: Field, items: seq<Value>) returns (ok: bool, all: seq<Value>)
    requires s.Valid() && WellFormed(f.sub) && Packable(f.ltype)
    modifies s
    ensures var d := DecodeDelimited(old(s.Rest()));
            var r := if d.Ok? then DecodePacked(f, items, d.value) else Err;
            Took(s, if r.Ok? then Ok(r.value, d.rest) else Err, ok) && (ok ==> all == r.value)
    decreases f, 4
  {
    hide DecodePacked, DecodeDelimited, WellFormed;
    all := items;
    var sub;
    ok, sub := MakeSubstream(s);
    if !ok { return; }
    ok, all := DecPacked(sub, f, items);
    if !ok { return; }
    CloseSubstream(s, sub);
  }

  // ---- messages ----

  lemma {:induction false} RequiredMonotone(fields: seq<Field>, i: nat, j: nat)
    requires i <= j <= |fields|
    ensures RequiredBefore(fields, i) <= RequiredBefore(fields, j)
    decreases j
  {
    if i < j { RequiredMonotone(fields, i, j - 1); }
  }

  /** The state of the loop, in memory. */
  ghost function StateOf(dest: Struct, seen: array<PbRequired.Word>): State
    requires seen.Length == 2
    reads dest, seen
  {
    State(dest.slots, PbRequired.SeenSet(seen[..]))
  }

  /** The rest of a turn of the loop of `pb_decode_noinit` once the field has been found. */
  method DecodeFoundField(s: IStream, wiretype: nat, iter: FieldIter, dest: Struct, seen: array<PbRequired.Word>)
    returns (ok: bool)
    requires s.Valid() && iter.Valid() && iter.pos < |iter.fields| == |dest.slots| && WellFormed(iter.fields)
    requires seen.Length == 2
    modifies s, dest, seen
    ensures var r := DecodeKnown(iter.fields, iter.pos, wiretype, old(StateOf(dest, seen)), old(s.Rest()));
            Took(s, r, ok) && (ok ==> StateOf(dest, seen) == r.value)
    ensures |dest.slots| == |iter.fields|
    ensures SeenBelow(iter.fields, old(seen[..])) ==> SeenBelow(iter.fields, seen[..])
    decreases iter.fields, 4
  {
    RequiredMonotone(iter.fields, iter.pos + 1, |iter.fields|);
    if iter.fields[iter.pos].htype.Required? && iter.requiredFieldIndex < MAX_REQUIRED_FIELDS {
      PbRequired.Mark(seen, iter.requiredFieldIndex);
    }
    ok := DecodeStaticField(s, wiretype, iter, dest);
  }

  /** A turn of the loop of `pb_decode_noinit` after its tag has been read. */
  method DecodeKeyedField(s: IStream, tag: nat, wiretype: nat, iter: FieldIter, dest: Struct,
                          seen: array<PbRequired.Word>)
    returns (ok: bool)
    requires s.Valid() && iter.Valid() && |iter.fields| == |dest.slots| && WellFormed(iter.fields)
    requires seen.Length == 2
    modifies s, iter, dest, seen
    ensures s.Valid() && s.End() <= old(s.End()) && iter.Valid() && |dest.slots| == |iter.fields|
    ensures SeenBelow(iter.fields, old(seen[..])) ==> SeenBelow(iter.fields, seen[..])
    ensures ok ==> s.End() == old(s.End())
    ensures DecodeKeyed(iter.fields, tag, wiretype, old(StateOf(dest, seen)), old(s.Rest())) ==
            if ok then More(StateOf(dest, seen), s.Rest()) else Bad
    decreases iter.fields, 5
  {
    var found := iter.Find(tag);
    if !found {
      assert IndexOf(iter.fields, tag) == |iter.fields|;
      ok := SkipOneField(s, wiretype);
    } else if iter.pos == |iter.fields| {
      // the terminator of an empty descriptor reads as a required integer of no valid size
      ok := false;
    } else {
      FoundIsIndexOf(iter.fields, tag, iter.pos);
      ok := DecodeFoundField(s, wiretype, iter, dest, seen);
    }
  }

  /** A turn of the loop of `pb_decode_noinit`; `stop` reports a zero key. */
  method DecodeOneField(s: IStream, iter: FieldIter, dest: Struct, seen: array<PbRequired.Word>)
    returns (ok: bool, stop: bool)
    requires s.Valid() && s.bytesLeft > 0 && iter.Valid() && |iter.fields| == |dest.slots| && WellFormed(iter.fields)
    requires seen.Length == 2
    modifies s, iter, dest, seen
    ensures s.Valid() && s.End() <= old(s.End()) && iter.Valid() && |dest.slots| == |iter.fields|
    ensures SeenBelow(iter.fields, old(seen[..])) ==> SeenBelow(iter.fields, seen[..])
    ensures ok || stop ==> s.End() == old(s.End())
    ensures DecodeTurn(iter.fields, old(StateOf(dest, seen)), old(s.Rest())) ==
            if ok then More(StateOf(dest, seen), s.Rest())
            else if stop then Stop(s.Rest()) else Bad
    ensures stop ==> StateOf(dest, seen) == old(StateOf(dest, seen)) && !ok
    decreases iter.fields, 6
  {
    ghost var st := StateOf(dest, seen);
    var wiretype, tag;
    ok, wiretype, tag, stop := ReadTag(s);
    assert StateOf(dest, seen) == st;
    if ok {
      ok := DecodeKeyedField(s, tag, wiretype, iter, dest, seen);
    }
  }

  /** Only bits of required fields are set. */
  predicate SeenBelow(fields: seq<Field>, words: seq<PbRequired.Word>)
    requires |words| == 2
  {
    forall k :: k in PbRequired.SeenSet(words) ==> k < RequiredBefore(fields, |fields|)
  }

  /** Counting the required fields by running the iterator to the end. */
  method CountRequired(iter: FieldIter) returns (count: nat)
    requires iter.Valid() && WellFormed(iter.fields)
    modifies iter
    ensures count == RequiredBefore(iter.fields, |iter.fields|)
  {
    var lastRequired, more := false, true;
    count := 0;
    while more
      invariant iter.Valid()
      invariant !more ==> iter.pos == 0
      invariant !more && iter.fields != [] ==>
        var last := |iter.fields| - 1;
        count == RequiredBefore(iter.fields, last) && lastRequired == iter.fields[last].htype.Required?
      invariant !more && iter.fields == [] ==> count == 0
      decreases more, |iter.fields| - iter.pos
    {
      count := iter.requiredFieldIndex;
      lastRequired := iter.pos < |iter.fields| && iter.fields[iter.pos].htype.Required?;
      more := iter.Next();
    }
    // fixup if the last field was also required
    if lastRequired && iter.CurrentTag() != 0 {
      count := count + 1;
    }
  }

  /** `pb_decode_noinit`. */
  method PbDecodeNoinit(s: IStream, fields: seq<Field>, dest: Struct) returns (ok: bool)
    requires s.Valid() && WellFormed(fields) && |dest.slots| == |fields|
    modifies s, dest
    ensures |dest.slots| == |fields|
    ensures var r := DecodeInto(fields, old(dest.slots), old(s.Rest()));
            Took(s, r, ok) && (ok ==> dest.slots == r.value)
    decreases fields, 7
  {
    hide WellFormed, DecodeTurn;
    var seen := new PbRequired.Word[2](_ => 0);
    PbRequired.NothingSeen(seen[..]);
    var iter := new FieldIter(fields);
    var stop := false;
    ghost var whole := DecodeLoop(fields, State(dest.slots, {}), s.Rest());
    assert StateOf(dest, seen) == State(dest.slots, {});
    while s.bytesLeft > 0 && !stop
      invariant s.Valid() && s.End() == old(s.End()) && iter.Valid()
      invariant iter.fields == fields && |dest.slots| == |fields|
      invariant fresh(iter) && fresh(seen) && SeenBelow(fields, seen[..])
      invariant whole == if stop then Ok(StateOf(dest, seen), s.Rest())
                         else DecodeLoop(fields, StateOf(dest, seen), s.Rest())
      decreases !stop, s.bytesLeft
    {
      ok, stop := DecodeOneField(s, iter, dest, seen);
      if !ok && !stop { return; }
    }
    var count := CountRequired(iter);
    ok := PbRequired.AllPresent(seen, count);
    PbRequired.MaskMeansAllRequired(fields, seen[..]);
  }

  /** `pb_decode`. */
  method PbDecode(s: IStream, fields: seq<Field>, dest: Struct) returns (ok: bool)
    requires s.Valid() && WellFormed(fields) && StructOf(fields, dest.slots)
    modifies s, dest
    ensures var r := Decode(fields, old(s.Rest()));
            Took(s, r, ok) && (ok ==> dest.slots == r.value)
    decreases fields, 8
  {
    SetToDefaults(fields, dest);
    ok := PbDecodeNoinit(s, fields, dest);
  }
}
