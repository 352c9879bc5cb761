/**
Decoding and concatenation.

Every decoding step looks only at the bytes it consumes (`*Extends`), so decoding two messages one
after the other into the same struct is the same as decoding their concatenation, unless the first
one holds a zero key, which ends a message early. Fields whose tag the descriptor does not know
may stand between the fields of a message without changing what is decoded.
*/
module PbMerge {
  import opened Bytes
  import opened PbWire
  import opened PbDescriptor
  import opened PbEncodeSpec
  import opened PbDecodeSpec
  import PbRoundTrip

  // ---- a step that succeeds does not look past what it consumed ----

  /** The bytes of `s` before its suffix `rest`. */
  function Used(s: seq<Byte>, rest: seq<Byte>): seq<Byte>
    requires |rest| <= |s|
  {
    s[..|s| - |rest|]
  }

  /** Reading one byte more in front: what was used grows by that byte. */
  lemma UsedCons(s: seq<Byte>, rest: seq<Byte>, t: seq<Byte>)
    requires s != [] && |rest| < |s| && s[1..] == Used(s[1..], rest) + rest
    ensures s == Used(s, rest) + rest
    ensures var p := Used(s, rest) + t; p != [] && p[0] == s[0] && p[1..] == Used(s[1..], rest) + t
  {
    assert Used(s, rest) == [s[0]] + Used(s[1..], rest);
  }

  /** Reading in two steps: what was used is what each step used. */
  lemma UsedTwice(s: seq<Byte>, mid: seq<Byte>, rest: seq<Byte>, t: seq<Byte>)
    requires |rest| <= |mid| <= |s|
    requires s == Used(s, mid) + mid && mid == Used(mid, rest) + rest
    ensures s == Used(s, rest) + rest
    ensures Used(s, rest) + t == Used(s, mid) + (Used(mid, rest) + t)
  {
    assert Used(s, rest) == Used(s, mid) + Used(mid, rest);
  }

  lemma UsedPrefix(s: seq<Byte>, n: nat, t: seq<Byte>)
    requires n <= |s|
    ensures Used(s, s[n..]) == s[..n] && s == s[..n] + s[n..]
    ensures (s[..n] + t)[..n] == s[..n] && (s[..n] + t)[n..] == t
  {
  }

  lemma {:induction false} VarintLocal(s: seq<Byte>, bitpos: nat, result: nat, t: seq<Byte>)
    requires Varint64Loop(s, bitpos, result).Ok?
    ensures var r := Varint64Loop(s, bitpos, result); var p := Used(s, r.rest);
            s == p + r.rest && Varint64Loop(p + t, bitpos, result) == Ok(r.value, t)
    decreases |s|
  {
    var r := Varint64Loop(s, bitpos, result);
    if s[0] >= 128 {
      VarintLocal(s[1..], bitpos + 7, Bits.Or(result, Bits.Shl(s[0] % 128, bitpos, 64)), t);
    }
    UsedCons(s, r.rest, t);
  }

  lemma {:induction false} Varint32LoopLocal(s: seq<Byte>, bitpos: nat, result: nat, t: seq<Byte>)
    requires Varint32Loop(s, bitpos, result).Ok?
    ensures var r := Varint32Loop(s, bitpos, result); var p := Used(s, r.rest);
            s == p + r.rest && Varint32Loop(p + t, bitpos, result) == Ok(r.value, t)
    decreases |s|
  {
    var r := Varint32Loop(s, bitpos, result);
    if s[0] >= 128 {
      Varint32LoopLocal(s[1..], (bitpos + 7) % 256, AddGroup32(s[0], bitpos, result), t);
    }
    UsedCons(s, r.rest, t);
  }

  lemma Varint32Local(s: seq<Byte>, t: seq<Byte>)
    requires DecodeVarint32(s).Ok?
    ensures var r := DecodeVarint32(s); var p := Used(s, r.rest);
            s == p + r.rest && DecodeVarint32(p + t) == Ok(r.value, t)
  {
    var r := DecodeVarint32(s);
    if s[0] >= 128 { Varint32LoopLocal(s[1..], 7, s[0] % 128, t); }
    UsedCons(s, r.rest, t);
  }

  /** A varint32 and as many bytes as it says. */
  lemma PrefixedLocal(s: seq<Byte>, t: seq<Byte>)
    requires DecodeVarint32(s).Ok? && DecodeVarint32(s).value <= |DecodeVarint32(s).rest|
    ensures var r := DecodeVarint32(s); var p := Used(s, r.rest[r.value..]);
            var q := DecodeVarint32(p + t);
            s == p + r.rest[r.value..] && q.Ok? && q.value == r.value <= |q.rest| &&
            q.rest[..r.value] == r.rest[..r.value] && q.rest[r.value..] == t
  {
    var r := DecodeVarint32(s);
    Varint32Local(s, r.rest[..r.value] + t);
    UsedPrefix(r.rest, r.value, t);
    UsedTwice(s, r.rest, r.rest[r.value..], t);
  }

  lemma IntegerLocal(f: Field, prev: Value, s: seq<Byte>, t: seq<Byte>)
    requires f.ltype.LVarint? || f.ltype.LUVarint? || f.ltype.LSVarint?
    requires DecodeValue(f, prev, s).Ok?
    ensures var r := DecodeValue(f, prev, s); var p := Used(s, r.rest);
            s == p + r.rest && DecodeValue(f, prev, p + t) == Ok(r.value, t)
  {
    VarintLocal(s, 0, 0, t);
  }

  lemma BytesLocal(f: Field, prev: Value, s: seq<Byte>, t: seq<Byte>)
    requires f.ltype.LBytes?
    requires DecodeValue(f, prev, s).Ok?
    ensures var r := DecodeValue(f, prev, s); var p := Used(s, r.rest);
            s == p + r.rest && DecodeValue(f, prev, p + t) == Ok(r.value, t)
  {
    PrefixedLocal(s, t);
  }

  lemma StringLocal(f: Field, prev: Value, s: seq<Byte>, t: seq<Byte>)
    requires f.ltype.LString?
    requires DecodeValue(f, prev, s).Ok?
    ensures var r := DecodeValue(f, prev, s); var p := Used(s, r.rest);
            s == p + r.rest && DecodeValue(f, prev, p + t) == Ok(r.value, t)
  {
    PrefixedLocal(s, t);
  }

  lemma EmptyFixedBytesLocal(f: Field, prev: Value, s: seq<Byte>, t: seq<Byte>)
    requires f.ltype.LFixedLengthBytes? && DecodeVarint32(s).Ok? && DecodeVarint32(s).value == 0
    requires DecodeValue(f, prev, s).Ok?
    ensures var r := DecodeValue(f, prev, s); var p := Used(s, r.rest);
            s == p + r.rest && DecodeValue(f, prev, p + t) == Ok(r.value, t)
  {
    Varint32Local(s, t);
  }

  lemma FixedBytesLocal(f: Field, prev: Value, s: seq<Byte>, t: seq<Byte>)
    requires f.ltype.LFixedLengthBytes? && DecodeVarint32(s).Ok? && DecodeVarint32(s).value != 0
    requires DecodeValue(f, prev, s).Ok?
    ensures var r := DecodeValue(f, prev, s); var p := Used(s, r.rest);
            s == p + r.rest && DecodeValue(f, prev, p + t) == Ok(r.value, t)
  {
    PrefixedLocal(s, t);
  }

  lemma SubmessageLocal(f: Field, prev: Value, s: seq<Byte>, t: seq<Byte>)
    requires f.ltype.LSubmessage?
    requires DecodeValue(f, prev, s).Ok?
    ensures var r := DecodeValue(f, prev, s); var p := Used(s, r.rest);
            s == p + r.rest && DecodeValue(f, prev, p + t) == Ok(r.value, t)
  {
    PrefixedLocal(s, t);
  }

  lemma FixedWidthLocal(f: Field, prev: Value, s: seq<Byte>, t: seq<Byte>)
    requires f.ltype.LFixed32? || f.ltype.LFixed64?
    requires DecodeValue(f, prev, s).Ok?
    ensures var r := DecodeValue(f, prev, s); var p := Used(s, r.rest);
            s == p + r.rest && DecodeValue(f, prev, p + t) == Ok(r.value, t)
  {
    UsedPrefix(s, if f.ltype.LFixed32? then 4 else 8, t);
  }

  lemma ValueLocal(f: Field, prev: Value, s: seq<Byte>, t: seq<Byte>)
    requires DecodeValue(f, prev, s).Ok?
    ensures var r := DecodeValue(f, prev, s); var p := Used(s, r.rest);
            s == p + r.rest && DecodeValue(f, prev, p + t) == Ok(r.value, t)
  {
    match f.ltype
    case LVarint | LUVarint | LSVarint => IntegerLocal(f, prev, s, t);
    case LFixed32 | LFixed64 => FixedWidthLocal(f, prev, s, t);
    case LBytes => BytesLocal(f, prev, s, t);
    case LString => StringLocal(f, prev, s, t);
    case LSubmessage => SubmessageLocal(f, prev, s, t);
    case LFixedLengthBytes =>
      if DecodeVarint32(s).value == 0 {
        EmptyFixedBytesLocal(f, prev, s, t);
      } else {
        FixedBytesLocal(f, prev, s, t);
      }
  }

  lemma FieldLocal(f: Field, wiretype: nat, slot: Slot, s: seq<Byte>, t: seq<Byte>)
    requires DecodeField(f, wiretype, slot, s).Ok?
    ensures var r := DecodeField(f, wiretype, slot, s); var p := Used(s, r.rest);
            s == p + r.rest && DecodeField(f, wiretype, slot, p + t) == Ok(r.value, t)
  {
    if f.htype.Required? || f.htype.Optional? {
      ValueLocal(f, PrevValue(f, slot), s, t);
    } else if f.htype.OneOf? {
      ValueLocal(f, DefaultValue(f), s, t);
    } else if wiretype == WT_STRING && Packable(f.ltype) {
      PrefixedLocal(s, t);
    } else {
      ValueLocal(f, DefaultValue(f), s, t);
    }
  }

  lemma {:induction false} SkipVarintLocal(s: seq<Byte>, t: seq<Byte>)
    requires SkipVarint(s).Ok?
    ensures var r := SkipVarint(s); var p := Used(s, r.rest);
            s == p + r.rest && SkipVarint(p + t) == Ok((), t)
    decreases |s|
  {
    var r := SkipVarint(s);
    if s[0] >= 128 { SkipVarintLocal(s[1..], t); }
    UsedCons(s, r.rest, t);
  }

  lemma SkipLocal(wiretype: nat, s: seq<Byte>, t: seq<Byte>)
    requires SkipField(wiretype, s).Ok?
    ensures var r := SkipField(wiretype, s); var p := Used(s, r.rest);
            s == p + r.rest && SkipField(wiretype, p + t) == Ok((), t)
  {
    if wiretype == WT_VARINT {
      SkipVarintLocal(s, t);
    } else if wiretype == WT_64BIT {
      UsedPrefix(s, 8, t);
    } else if wiretype == WT_32BIT {
      UsedPrefix(s, 4, t);
    } else {
      PrefixedLocal(s, t);
    }
  }

  lemma KeyedLocal(fields: seq<Field>, tag: nat, wiretype: nat, st: State, s: seq<Byte>, t: seq<Byte>)
    requires |st.msg| == |fields| && DecodeKeyed(fields, tag, wiretype, st, s).More?
    ensures var r := DecodeKeyed(fields, tag, wiretype, st, s); var p := Used(s, r.rest);
            s == p + r.rest && DecodeKeyed(fields, tag, wiretype, st, p + t) == r.(rest := t)
  {
    var i := IndexOf(fields, tag);
    if i < |fields| {
      FieldLocal(fields[i], wiretype, st.msg[Leader(fields, i)], s, t);
    } else {
      SkipLocal(wiretype, s, t);
    }
  }

  /** A turn of the main loop that does not fail is decided by the bytes it consumes. */
  lemma TurnLocal(fields: seq<Field>, st: State, s: seq<Byte>, t: seq<Byte>)
    requires |st.msg| == |fields| && !DecodeTurn(fields, st, s).Bad?
    ensures var r := DecodeTurn(fields, st, s); var p := Used(s, r.rest);
            s == p + r.rest && DecodeTurn(fields, st, p + t) == r.(rest := t)
  {
    var r := DecodeTurn(fields, st, s);
    var q := DecodeTag(s);
    if q.value.EndOfMessage? {
      Varint32Local(s, t);
    } else {
      Varint32Local(s, Used(q.rest, r.rest) + t);
      KeyedLocal(fields, q.value.tag, q.value.wiretype, st, q.rest, t);
      UsedTwice(s, q.rest, r.rest, t);
    }
  }

  lemma TurnExtends(fields: seq<Field>, st: State, s: seq<Byte>, t: seq<Byte>)
    requires |st.msg| == |fields| && !DecodeTurn(fields, st, s).Bad?
    ensures var r := DecodeTurn(fields, st, s);
            DecodeTurn(fields, st, s + t) == r.(rest := r.rest + t)
  {
    var r := DecodeTurn(fields, st, s);
    TurnLocal(fields, st, s, r.rest + t);
    PbRoundTrip.Assoc(Used(s, r.rest), r.rest, t);
  }

  // ---- concatenation ----

  /** The loop over `s` ends at a zero key rather than at the end of the bytes. */
  predicate StopsEarly(fields: seq<Field>, st: State, s: seq<Byte>)
    requires |st.msg| == |fields|
    decreases |s|
  {
    s != [] &&
    match DecodeTurn(fields, st, s)
    case Bad => false
    case Stop(_) => true
    case More(st', rest) => StopsEarly(fields, st', rest)
  }

  /** Two inputs in a row: the second is decoded on top of the first, or never reached. */
  lemma {:induction false} LoopConcat(fields: seq<Field>, st: State, a: seq<Byte>, b: seq<Byte>)
    requires |st.msg| == |fields| && DecodeLoop(fields, st, a).Ok?
    ensures var r := DecodeLoop(fields, st, a);
            DecodeLoop(fields, st, a + b) ==
            if StopsEarly(fields, st, a) then Ok(r.value, r.rest + b) else DecodeLoop(fields, r.value, b)
    ensures !StopsEarly(fields, st, a) ==> DecodeLoop(fields, st, a).rest == []
    decreases |a|
  {
    if a == [] {
      assert a + b == b;
    } else {
      TurnExtends(fields, st, a, b);
      var r := DecodeTurn(fields, st, a);
      if r.More? { LoopConcat(fields, r.st, r.rest, b); }
    }
  }

  /** The required fields already seen play no part in decoding; they are only added to. */
  lemma {:induction false} LoopSeen(fields: seq<Field>, msg: Message, seen: set<nat>, s: seq<Byte>)
    requires |msg| == |fields|
    ensures var r, q := DecodeLoop(fields, State(msg, seen), s), DecodeLoop(fields, State(msg, {}), s);
            match q
            case Err => r == Err
            case Ok(st, rest) => r == Ok(State(st.msg, seen + st.seen), rest)
    decreases |s|
  {
    if s != [] {
      TurnSeen(fields, msg, seen, s);
      var r, q := DecodeTurn(fields, State(msg, seen), s), DecodeTurn(fields, State(msg, {}), s);
      if q.More? {
        LoopSeen(fields, q.st.msg, r.st.seen, q.rest);
        LoopSeen(fields, q.st.msg, q.st.seen, q.rest);
        assert forall x: set<nat> :: (seen + q.st.seen) + x == seen + (q.st.seen + x);
      } else {
        assert seen + {} == seen;
      }
    } else {
      assert seen + {} == seen;
    }
  }

  lemma KeyedSeen(fields: seq<Field>, tag: nat, wiretype: nat, msg: Message, seen: set<nat>, s: seq<Byte>)
    requires |msg| == |fields|
    ensures var r, q := DecodeKeyed(fields, tag, wiretype, State(msg, seen), s),
                        DecodeKeyed(fields, tag, wiretype, State(msg, {}), s);
            r == if q.More? then More(State(q.st.msg, seen + q.st.seen), q.rest) else q
  {
    assert seen + {} == seen;
    forall i | 0 <= i < |fields| ensures MarkSeen(fields, i, seen) == seen + MarkSeen(fields, i, {}) {
      assert {} + {RequiredBefore(fields, i)} == {RequiredBefore(fields, i)};
    }
  }

  lemma TurnSeen(fields: seq<Field>, msg: Message, seen: set<nat>, s: seq<Byte>)
    requires |msg| == |fields|
    ensures var r, q := DecodeTurn(fields, State(msg, seen), s), DecodeTurn(fields, State(msg, {}), s);
            r == if q.More? then More(State(q.st.msg, seen + q.st.seen), q.rest) else q
  {
    var d := DecodeTag(s);
    if d.Ok? && d.value.Key? {
      KeyedSeen(fields, d.value.tag, d.value.wiretype, msg, seen, d.rest);
    }
  }

  /**
  Concatenation is merge. Once `a` has been decoded into a struct and has ended with its bytes,
  decoding `a + b` does to the struct exactly what decoding `b` on top of it does; the required
  fields may be in either half.
  */
  lemma MergeExact(fields: seq<Field>, msg: Message, a: seq<Byte>, b: seq<Byte>)
    requires |msg| == |fields| && DecodeInto(fields, msg, a).Ok?
    ensures var m := DecodeInto(fields, msg, a).value;
            DecodeInto(fields, msg, a + b) ==
            if StopsEarly(fields, State(msg, {}), a) then Ok(m, DecodeInto(fields, msg, a).rest + b)
            else match DecodeLoop(fields, State(m, {}), b)
                 case Err => Err
                 case Ok(st, rest) => Ok(st.msg, rest)
  {
    LoopConcat(fields, State(msg, {}), a, b);
    var st := DecodeLoop(fields, State(msg, {}), a).value;
    LoopSeen(fields, st.msg, st.seen, b);
  }

  lemma Merge(fields: seq<Field>, msg: Message, a: seq<Byte>, b: seq<Byte>)
    requires |msg| == |fields| && DecodeInto(fields, msg, a).Ok? && !StopsEarly(fields, State(msg, {}), a)
    requires DecodeInto(fields, DecodeInto(fields, msg, a).value, b).Ok?
    ensures DecodeInto(fields, msg, a + b) == DecodeInto(fields, DecodeInto(fields, msg, a).value, b)
  {
    MergeExact(fields, msg, a, b);
  }

  /** After a zero key the second half is not looked at: field 1 keeps its default instead of 5. */
  lemma MergeFailsAfterZeroKey(f: Field)
    requires f == Field(1, LUVarint, Optional, 0, 4, 4, 0, [], None)
    ensures var m := Default([f]);
            && DecodeInto([f], m, [0]) == Ok(m, [])
            && DecodeInto([f], m, [8, 5]) == Ok([Flagged(true, Num(5))], [])
            && DecodeInto([f], m, [0] + [8, 5]) == Ok(m, [8, 5])
  {
    var fields, m := [f], Default([f]);
    var st := State(m, {});
    assert Leader(fields, 0) == 0 && IndexOf(fields, 1) == 0;
    assert RequiredBefore(fields, 1) == 0;
    assert [0][1..] == [] && [8, 5][1..] == [5] && [5][1..] == [] && ([0] + [8, 5])[1..] == [8, 5];
    assert DecodeTurn(fields, st, [0]) == Stop([]) && DecodeTurn(fields, st, [0] + [8, 5]) == Stop([8, 5]);
    assert DecodeTag([8, 5]) == Ok(Key(1, 0), [5]);
    OneByteVarint(5);
    assert DecodeValue(f, PrevValue(f, m[0]), [5]) == Ok(Num(5), []);
    assert DecodeField(f, 0, m[0], [5]) == Ok(Flagged(true, Num(5)), []);
    assert DecodeKnown(fields, 0, 0, st, [5]).Ok?;
    assert m[0 := Flagged(true, Num(5))] == [Flagged(true, Num(5))];
    var st' := State([Flagged(true, Num(5))], {});
    assert DecodeTurn(fields, st, [8, 5]) == More(st', []);
    assert DecodeLoop(fields, st', []) == Ok(st', []);
    assert DecodeLoop(fields, st, [8, 5]) == Ok(st', []);
  }

  lemma OneByteVarint(b: Byte)
    requires b < 128
    ensures DecodeVarint64([b]) == Ok(b, [])
  {
    VarintRoundTrip(b, []);
    assert Varint(b) + [] == [b];
  }

  // ---- unknown fields ----

  /** The payload of a field, by wire type; a varint may have any number of leading bytes. */
  datatype Payload =
    | VarintPayload(high: seq<Byte>, last: Byte)
    | Fixed64Payload(b: seq<Byte>)
    | LengthPayload(b: seq<Byte>)
    | Fixed32Payload(b: seq<Byte>)

  datatype RawField = RawField(tag: nat, payload: Payload)

  predicate GoodPayload(p: Payload)
  {
    match p
    case VarintPayload(high, last) => last < 128 && forall i :: 0 <= i < |high| ==> high[i] >= 128
    case Fixed64Payload(b) => |b| == 8
    case LengthPayload(b) => |b| < U32
    case Fixed32Payload(b) => |b| == 4
  }

  function PayloadType(p: Payload): (w: nat)
    ensures w < 8
  {
    match p
    case VarintPayload(_, _) => WT_VARINT
    case Fixed64Payload(_) => WT_64BIT
    case LengthPayload(_) => WT_STRING
    case Fixed32Payload(_) => WT_32BIT
  }

  function PayloadBytes(p: Payload): seq<Byte>
  {
    match p
    case VarintPayload(high, last) => high + [last]
    case Fixed64Payload(b) => b
    case LengthPayload(b) => Delimited(b)
    case Fixed32Payload(b) => b
  }

  function RawBytes(u: RawField): seq<Byte>
  {
    Tag(PayloadType(u.payload), u.tag) + PayloadBytes(u.payload)
  }

  predicate Unknown(fields: seq<Field>, u: RawField)
  {
    && 0 < u.tag < 0x2000_0000 && GoodPayload(u.payload)
    && forall i :: 0 <= i < |fields| ==> fields[i].tag != u.tag
  }

  lemma {:induction false} SkipVarintExact(high: seq<Byte>, last: Byte, t: seq<Byte>)
    requires last < 128 && forall i :: 0 <= i < |high| ==> high[i] >= 128
    ensures SkipVarint(high + [last] + t) == Ok((), t)
    decreases |high|
  {
    var s := high + [last] + t;
    if high == [] {
      assert s[1..] == t;
    } else {
      assert s[1..] == high[1..] + [last] + t;
      SkipVarintExact(high[1..], last, t);
    }
  }

  /** `pb_skip_field` consumes exactly the field's payload. */
  lemma SkipExact(p: Payload, t: seq<Byte>)
    requires GoodPayload(p)
    ensures SkipField(PayloadType(p), PayloadBytes(p) + t) == Ok((), t)
  {
    match p
    case VarintPayload(high, last) => SkipVarintExact(high, last, t);
    case Fixed64Payload(b) => PbRoundTrip.SplitAt(b, t);
    case Fixed32Payload(b) => PbRoundTrip.SplitAt(b, t);
    case LengthPayload(b) =>
      PbRoundTrip.DelimitedRead(b, t);
      PbRoundTrip.SplitAt(b, t);
  }

  /** An unknown field is consumed whole and leaves the state alone. */
  lemma UnknownTurn(fields: seq<Field>, st: State, u: RawField, t: seq<Byte>)
    requires |st.msg| == |fields| && Unknown(fields, u)
    ensures DecodeLoop(fields, st, RawBytes(u) + t) == DecodeLoop(fields, st, t)
  {
    var w, p := PayloadType(u.payload), PayloadBytes(u.payload);
    assert RawBytes(u) + t == Tag(w, u.tag) + (p + t);
    PbRoundTrip.KeyRead(u.tag, w, p + t);
    SkipExact(u.payload, t);
    assert IndexOf(fields, u.tag) == |fields|;
    assert DecodeTurn(fields, st, RawBytes(u) + t) == More(st, t);
  }

  function AllBytes(us: seq<RawField>): seq<Byte>
  {
    if us == [] then [] else RawBytes(us[0]) + AllBytes(us[1..])
  }

  predicate AllUnknown(fields: seq<Field>, us: seq<RawField>)
  {
    forall u :: u in us ==> Unknown(fields, u)
  }

  lemma {:induction false} UnknownTurns(fields: seq<Field>, st: State, us: seq<RawField>, t: seq<Byte>)
    requires |st.msg| == |fields| && AllUnknown(fields, us)
    ensures DecodeLoop(fields, st, AllBytes(us) + t) == DecodeLoop(fields, st, t)
    decreases |us|
  {
    if us == [] {
      assert AllBytes(us) + t == t;
    } else {
      assert AllBytes(us) + t == RawBytes(us[0]) + (AllBytes(us[1..]) + t);
      UnknownTurn(fields, st, us[0], AllBytes(us[1..]) + t);
      UnknownTurns(fields, st, us[1..], t);
    }
  }

  /** Where the fields of a message begin and end: the bytes each turn of the loop consumes. */
  function FieldsOf(fields: seq<Field>, st: State, s: seq<Byte>): (pieces: seq<seq<Byte>>)
    requires |st.msg| == |fields|
    decreases |s|
  {
    if s == [] then []
    else match DecodeTurn(fields, st, s)
      case Bad => [s]
      case Stop(_) => [s]
      case More(st', rest) => [Used(s, rest)] + FieldsOf(fields, st', rest)
  }

  /** `pieces` with the unknown fields `gaps[i]` put before piece `i`, and the last gap at the end. */
  function Weave(pieces: seq<seq<Byte>>, gaps: seq<seq<RawField>>): seq<Byte>
    requires |gaps| == |pieces| + 1
    decreases |pieces|
  {
    if pieces == [] then AllBytes(gaps[0])
    else AllBytes(gaps[0]) + (pieces[0] + Weave(pieces[1..], gaps[1..]))
  }

  predicate UnknownGaps(fields: seq<Field>, gaps: seq<seq<RawField>>)
  {
    forall g :: g in gaps ==> AllUnknown(fields, g)
  }

  lemma KnownTurn(fields: seq<Field>, st: State, s: seq<Byte>, tail: seq<Byte>)
    requires |st.msg| == |fields| && s != [] && DecodeTurn(fields, st, s).More?
    ensures var r := DecodeTurn(fields, st, s);
            DecodeLoop(fields, st, Used(s, r.rest) + tail) == DecodeLoop(fields, r.st, tail)
  {
    TurnLocal(fields, st, s, tail);
    assert Used(s, DecodeTurn(fields, st, s).rest) + tail != [];
  }

  /** What stays unread behind a zero key when `more` comes behind the message. */
  function Unread(fields: seq<Field>, st: State, s: seq<Byte>, rest: seq<Byte>, more: seq<Byte>): seq<Byte>
    requires |st.msg| == |fields|
  {
    if StopsEarly(fields, st, s) then rest + more else rest
  }

  lemma {:induction false} WeaveTransparent(fields: seq<Field>, st: State, s: seq<Byte>, gaps: seq<seq<RawField>>)
    requires |st.msg| == |fields| && DecodeLoop(fields, st, s).Ok?
    requires |gaps| == |FieldsOf(fields, st, s)| + 1 && UnknownGaps(fields, gaps)
    ensures var r := DecodeLoop(fields, st, s);
            DecodeLoop(fields, st, Weave(FieldsOf(fields, st, s), gaps)) ==
            Ok(r.value, Unread(fields, st, s, r.rest, AllBytes(gaps[|gaps| - 1])))
    decreases |s|
  {
    var pieces := FieldsOf(fields, st, s);
    if s == [] {
      assert AllBytes(gaps[0]) + [] == AllBytes(gaps[0]);
      UnknownTurns(fields, st, gaps[0], []);
    } else {
      var r := DecodeTurn(fields, st, s);
      var tail := Weave(pieces[1..], gaps[1..]);
      UnknownTurns(fields, st, gaps[0], pieces[0] + tail);
      if r.Stop? {
        assert pieces == [s] && tail == AllBytes(gaps[1]);
        TurnExtends(fields, st, s, tail);
      } else {
        assert pieces[0] == Used(s, r.rest) && pieces[1..] == FieldsOf(fields, r.st, r.rest);
        KnownTurn(fields, st, s, tail);
        WeaveTransparent(fields, r.st, r.rest, gaps[1..]);
      }
    }
  }

  /**
  Unknown fields are transparent: put any well-formed fields with tags the descriptor does not have
  between the fields of an accepted message, before the first or after the last, and the same
  struct is decoded. What comes behind a zero key stays unread, as it would have anyway.
  */
  lemma UnknownFieldsTransparent(fields: seq<Field>, msg: Message, s: seq<Byte>, gaps: seq<seq<RawField>>)
    requires |msg| == |fields| && DecodeInto(fields, msg, s).Ok?
    requires |gaps| == |FieldsOf(fields, State(msg, {}), s)| + 1 && UnknownGaps(fields, gaps)
    ensures var r := DecodeInto(fields, msg, s);
            DecodeInto(fields, msg, Weave(FieldsOf(fields, State(msg, {}), s), gaps)) ==
            Ok(r.value, Unread(fields, State(msg, {}), s, r.rest, AllBytes(gaps[|gaps| - 1])))
  {
    WeaveTransparent(fields, State(msg, {}), s, gaps);
  }

  function Concat(pieces: seq<seq<Byte>>): seq<Byte>
  {
    if pieces == [] then [] else pieces[0] + Concat(pieces[1..])
  }

  /** The fields of a message, back to back, are the message. */
  lemma {:induction false} FieldsOfConcat(fields: seq<Field>, st: State, s: seq<Byte>)
    requires |st.msg| == |fields|
    ensures Concat(FieldsOf(fields, st, s)) == s
    decreases |s|
  {
    if s != [] {
      var r := DecodeTurn(fields, st, s);
      if r.More? {
        TurnLocal(fields, st, s, []);
        FieldsOfConcat(fields, r.st, r.rest);
        var tail := FieldsOf(fields, r.st, r.rest);
        assert ([Used(s, r.rest)] + tail)[1..] == tail;
      }
    }
  }

  /**
  The same one level down: a submessage body replaced by any body that decodes to the same message
  (one with unknown fields put in, say) leaves the outer value unchanged.
  */
  lemma NestedTransparent(f: Field, prev: Value, body: seq<Byte>, body': seq<Byte>, t: seq<Byte>)
    requires f.ltype.LSubmessage? && |body| < U32 && |body'| < U32
    requires var m := if f.htype.Repeated? then Default(f.sub) else PrevMessage(f, prev);
             DecodeInto(f.sub, m, body) == DecodeInto(f.sub, m, body')
    ensures DecodeValue(f, prev, Delimited(body) + t) == DecodeValue(f, prev, Delimited(body') + t)
  {
    PbRoundTrip.DelimitedRead(body, t);
    PbRoundTrip.DelimitedRead(body', t);
  }
}
