/**
What a message on the wire says, told by the keys its fields begin with: which required fields are missing,
what a field that no key names holds, how submessages and arrays that come in several fields add up.

`FieldsOf` cuts a message into its fields and `DecodeTag` reads their keys. Nothing here is told in terms
of the bookkeeping of the decoder.
*/
module PbFields {
  import opened Bytes
  import opened PbWire
  import opened PbDescriptor
  import opened PbEncodeSpec
  import opened PbDecodeSpec
  import opened PbMerge
  import PbRoundTrip

  /** The field on the wire begins with that number. */
  predicate Names(piece: seq<Byte>, tag: nat)
  {
    var key := DecodeTag(piece);
    key.Ok? && key.value.Key? && key.value.tag == tag
  }

  predicate Named(pieces: seq<seq<Byte>>, tag: nat)
  {
    exists p :: p in pieces && Names(p, tag)
  }

  lemma NamedCons(p: seq<Byte>, pieces: seq<seq<Byte>>, tag: nat)
    ensures Named([p] + pieces, tag) <==> Names(p, tag) || Named(pieces, tag)
  {
    if Named(pieces, tag) {
      var x :| x in pieces && Names(x, tag);
      assert x in [p] + pieces;
    }
    if Names(p, tag) { assert p in [p] + pieces; }
  }

  /** A turn of the loop consumes the key it reads. */
  lemma TurnKey(fields: seq<Field>, st: State, s: seq<Byte>)
    requires |st.msg| == |fields| && s != [] && DecodeTurn(fields, st, s).More?
    ensures var r := DecodeTurn(fields, st, s);
            && DecodeTag(s).Ok? && DecodeTag(s).value.Key?
            && forall tag :: Names(Used(s, r.rest), tag) <==> tag == DecodeTag(s).value.tag
  {
    var r, q := DecodeTurn(fields, st, s), DecodeTag(s);
    TurnLocal(fields, st, s, []);
    KeyedLocal(fields, q.value.tag, q.value.wiretype, st, q.rest, []);
    Varint32Local(s, Used(q.rest, r.rest) + []);
    UsedTwice(s, q.rest, r.rest, []);
    assert Used(s, r.rest) + [] == Used(s, r.rest);
  }

  /** What a turn does to the state: the field its key names gets a new slot. */
  lemma TurnState(fields: seq<Field>, st: State, s: seq<Byte>)
    requires |st.msg| == |fields| && s != [] && DecodeTurn(fields, st, s).More?
    ensures var st', i := DecodeTurn(fields, st, s).st, IndexOf(fields, DecodeTag(s).value.tag);
            if i < |fields|
            then
              var k := Leader(fields, i);
              st'.msg == st.msg[k := st'.msg[k]] && st'.seen == MarkSeen(fields, i, st.seen)
            else st' == st
  {
    var d := DecodeTag(s);
    var i := IndexOf(fields, d.value.tag);
    assert DecodeTurn(fields, st, s) == DecodeKeyed(fields, d.value.tag, d.value.wiretype, st, d.rest);
    if i < |fields| {
      var known := DecodeKnown(fields, i, d.value.wiretype, st, d.rest);
      var slot := DecodeField(fields[i], d.value.wiretype, st.msg[Leader(fields, i)], d.rest).value;
      assert known.value.msg == st.msg[Leader(fields, i) := slot];
    }
  }

  /** The pieces from the second on. */
  lemma FieldsAfter(fields: seq<Field>, st: State, s: seq<Byte>)
    requires |st.msg| == |fields| && s != [] && DecodeTurn(fields, st, s).More?
    ensures var r := DecodeTurn(fields, st, s);
            FieldsOf(fields, st, s) == [Used(s, r.rest)] + FieldsOf(fields, r.st, r.rest)
  {
  }

  lemma NothingAtStop(fields: seq<Field>, st: State, s: seq<Byte>, tag: nat)
    requires |st.msg| == |fields| && s != [] && DecodeTurn(fields, st, s).Stop?
    ensures !Named(FieldsOf(fields, st, s), tag)
  {
    assert FieldsOf(fields, st, s) == [s];
  }

  // ---- required fields ----

  predicate DistinctTags(fields: seq<Field>)
  {
    forall i, j :: 0 <= i < j < |fields| ==> fields[i].tag != fields[j].tag
  }

  /** Field `i` is required, and among the first 64 that are. */
  predicate Tracked(fields: seq<Field>, i: nat)
    requires i < |fields|
  {
    fields[i].htype.Required? && |set j: nat | j < i && fields[j].htype.Required?| < 64
  }

  /** Of every tracked required field there is one on the wire. */
  predicate AllNamed(fields: seq<Field>, pieces: seq<seq<Byte>>)
  {
    forall i :: 0 <= i < |fields| && Tracked(fields, i) ==> Named(pieces, fields[i].tag)
  }

  lemma {:induction false} RequiredCount(fields: seq<Field>, i: nat)
    requires i <= |fields|
    ensures RequiredBefore(fields, i) == |set j: nat | j < i && fields[j].htype.Required?|
    decreases i
  {
    if i > 0 {
      RequiredCount(fields, i - 1);
      var before, now := set j: nat | j < i - 1 && fields[j].htype.Required?,
                         set j: nat | j < i && fields[j].htype.Required?;
      assert now == if fields[i - 1].htype.Required? then before + {i - 1} else before;
    }
  }

  lemma {:induction false} RequiredGrows(fields: seq<Field>, i: nat, j: nat)
    requires i < j <= |fields| && fields[i].htype.Required?
    ensures RequiredBefore(fields, i) < RequiredBefore(fields, j)
    decreases j
  {
    if i < j - 1 { RequiredGrows(fields, i, j - 1); }
  }

  /** Every index below the number of required fields belongs to one of them. */
  lemma {:induction false} RequiredAt(fields: seq<Field>, n: nat, k: nat) returns (i: nat)
    requires n <= |fields| && k < RequiredBefore(fields, n)
    ensures i < n && fields[i].htype.Required? && RequiredBefore(fields, i) == k
    decreases n
  {
    if fields[n - 1].htype.Required? && RequiredBefore(fields, n - 1) == k {
      i := n - 1;
    } else {
      i := RequiredAt(fields, n - 1, k);
    }
  }

  lemma MarkedOne(fields: seq<Field>, i: nat, j: nat, seen: set<nat>)
    requires i < |fields| && j < |fields| && fields[i].htype.Required? && RequiredBefore(fields, i) < 64
    ensures RequiredBefore(fields, i) in MarkSeen(fields, j, seen) <==> RequiredBefore(fields, i) in seen || i == j
  {
    if fields[j].htype.Required? {
      if i < j { RequiredGrows(fields, i, j); }
      if j < i { RequiredGrows(fields, j, i); }
    }
  }

  /** One turn marks a required field exactly if its key is the field's. */
  lemma TurnMarks(fields: seq<Field>, st: State, s: seq<Byte>, i: nat)
    requires |st.msg| == |fields| && DistinctTags(fields) && s != [] && DecodeTurn(fields, st, s).More?
    requires i < |fields| && fields[i].htype.Required? && RequiredBefore(fields, i) < 64
    ensures var r := DecodeTurn(fields, st, s); var k := RequiredBefore(fields, i);
            k in r.st.seen <==> k in st.seen || Names(Used(s, r.rest), fields[i].tag)
  {
    TurnKey(fields, st, s);
    TurnState(fields, st, s);
    var tag := DecodeTag(s).value.tag;
    var j := IndexOf(fields, tag);
    if j < |fields| {
      MarkedOne(fields, i, j, st.seen);
      assert i == j <==> fields[i].tag == tag;
    }
  }

  lemma {:induction false} LoopMarks(fields: seq<Field>, st: State, s: seq<Byte>, i: nat)
    requires |st.msg| == |fields| && DistinctTags(fields) && DecodeLoop(fields, st, s).Ok?
    requires i < |fields| && fields[i].htype.Required? && RequiredBefore(fields, i) < 64
    ensures var k := RequiredBefore(fields, i);
            k in DecodeLoop(fields, st, s).value.seen <==>
            k in st.seen || Named(FieldsOf(fields, st, s), fields[i].tag)
    decreases |s|
  {
    if s != [] {
      var r := DecodeTurn(fields, st, s);
      if r.More? {
        TurnMarks(fields, st, s, i);
        LoopMarks(fields, r.st, r.rest, i);
        FieldsAfter(fields, st, s);
        NamedCons(Used(s, r.rest), FieldsOf(fields, r.st, r.rest), fields[i].tag);
      } else {
        NothingAtStop(fields, st, s, fields[i].tag);
      }
    }
  }

  /**
  A message is accepted if and only if its fields can be decoded and each required field, up to the 64th, is
  among them.
  */
  lemma RequiredFields(fields: seq<Field>, msg: Message, s: seq<Byte>)
    requires |msg| == |fields| && DistinctTags(fields)
    ensures var st := State(msg, {}); var loop := DecodeLoop(fields, st, s);
            DecodeInto(fields, msg, s) ==
            if loop.Ok? && AllNamed(fields, FieldsOf(fields, st, s)) then Ok(loop.value.msg, loop.rest) else Err
  {
    var st := State(msg, {});
    var loop := DecodeLoop(fields, st, s);
    if loop.Ok? {
      forall i | 0 <= i < |fields| && fields[i].htype.Required?
        ensures Tracked(fields, i) <==> RequiredBefore(fields, i) < 64
        ensures Tracked(fields, i) ==>
          (RequiredBefore(fields, i) in loop.value.seen <==> Named(FieldsOf(fields, st, s), fields[i].tag))
      {
        RequiredCount(fields, i);
        if Tracked(fields, i) { LoopMarks(fields, st, s, i); }
      }
      if AllNamed(fields, FieldsOf(fields, st, s)) {
        forall k: nat | k < RequiredBefore(fields, |fields|) && k < 64 ensures k in loop.value.seen {
          var i := RequiredAt(fields, |fields|, k);
        }
      } else {
        var i :| 0 <= i < |fields| && Tracked(fields, i) && !Named(FieldsOf(fields, st, s), fields[i].tag);
        RequiredGrows(fields, i, |fields|);
      }
    }
  }

  // ---- what is not named stays ----

  /** No field on the wire belongs to slot `k`. */
  predicate Unnamed(fields: seq<Field>, k: nat, pieces: seq<seq<Byte>>)
  {
    forall i :: 0 <= i < |fields| && Leader(fields, i) == k ==> !Named(pieces, fields[i].tag)
  }

  lemma TurnKeeps(fields: seq<Field>, st: State, s: seq<Byte>, k: nat)
    requires |st.msg| == |fields| && k < |fields| && s != [] && DecodeTurn(fields, st, s).More?
    requires Unnamed(fields, k, FieldsOf(fields, st, s))
    ensures var r := DecodeTurn(fields, st, s);
            r.st.msg[k] == st.msg[k] && Unnamed(fields, k, FieldsOf(fields, r.st, r.rest))
  {
    var r := DecodeTurn(fields, st, s);
    TurnKey(fields, st, s);
    TurnState(fields, st, s);
    FieldsAfter(fields, st, s);
    forall i | 0 <= i < |fields| && Leader(fields, i) == k
      ensures !Names(Used(s, r.rest), fields[i].tag) && !Named(FieldsOf(fields, r.st, r.rest), fields[i].tag)
    {
      NamedCons(Used(s, r.rest), FieldsOf(fields, r.st, r.rest), fields[i].tag);
    }
    var j := IndexOf(fields, DecodeTag(s).value.tag);
    if j < |fields| { assert Leader(fields, j) != k; }
  }

  lemma {:induction false} LoopKeeps(fields: seq<Field>, st: State, s: seq<Byte>, k: nat)
    requires |st.msg| == |fields| && k < |fields| && DecodeLoop(fields, st, s).Ok?
    requires Unnamed(fields, k, FieldsOf(fields, st, s))
    ensures DecodeLoop(fields, st, s).value.msg[k] == st.msg[k]
    decreases |s|
  {
    if s != [] && DecodeTurn(fields, st, s).More? {
      var r := DecodeTurn(fields, st, s);
      TurnKeeps(fields, st, s, k);
      LoopKeeps(fields, r.st, r.rest, k);
    }
  }

  /** Decoding over a struct leaves alone what no key names. */
  lemma UnnamedKept(fields: seq<Field>, msg: Message, s: seq<Byte>, k: nat)
    requires |msg| == |fields| && k < |fields| && DecodeInto(fields, msg, s).Ok?
    requires Unnamed(fields, k, FieldsOf(fields, State(msg, {}), s))
    ensures DecodeInto(fields, msg, s).value[k] == msg[k]
  {
    LoopKeeps(fields, State(msg, {}), s, k);
  }

  // ---- defaults ----

  /** The declared default; and without one zero, an empty string or bytes, or a submessage of defaults. */
  predicate IsDefaultValue(f: Field, v: Value)
    decreases f, 0
  {
    if f.ltype.LSubmessage? then v.Msg? && IsDefaultMessage(f.sub, v.slots)
    else if f.init.Some? then v == f.init.value
    else match f.ltype
      case LBytes => v == Blob([])
      case LString => v.Blob? && |v.b| <= f.dataSize && (f.dataSize > 0 ==> |v.b| > 0 && v.b[0] == 0)
      case LFixedLengthBytes => v.Blob? && |v.b| == f.dataSize && AllZero(v.b)
      case _ => v == Num(0)
  }

  predicate IsDefaultSlot(f: Field, slot: Slot)
    decreases f, 1
  {
    match f.htype
    case Required => slot.Plain? && IsDefaultValue(f, slot.v)
    case Optional =>
      if f.sizeOffset != 0 then slot.Flagged? && !slot.has && IsDefaultValue(f, slot.v)
      else slot.Plain? && IsDefaultValue(f, slot.v)
    case Repeated => slot == Many([])
    case OneOf => slot.Union? && slot.which == 0
  }

  predicate IsDefaultMessage(fields: seq<Field>, msg: Message)
    decreases fields, 2
  {
    |msg| == |fields| &&
    forall i :: 0 <= i < |fields| && !InUnion(fields, i) ==> IsDefaultSlot(fields[i], msg[i])
  }

  lemma {:induction false} DefaultValueIs(f: Field)
    ensures IsDefaultValue(f, DefaultValue(f))
    decreases f, 0
  {
    if f.ltype.LSubmessage? { DefaultMessageIs(f.sub); }
  }

  lemma {:induction false} DefaultMessageIs(fields: seq<Field>)
    ensures IsDefaultMessage(fields, Default(fields))
    decreases fields, 1
  {
    forall i | 0 <= i < |fields| && !InUnion(fields, i) ensures IsDefaultSlot(fields[i], Default(fields)[i]) {
      DefaultValueIs(fields[i]);
    }
  }

  /** After `pb_decode` of anything it accepts, a field or union that no key names holds its defaults. */
  lemma UnnamedHasDefault(fields: seq<Field>, s: seq<Byte>, k: nat)
    requires Decode(fields, s).Ok? && k < |fields| && !InUnion(fields, k)
    requires Unnamed(fields, k, FieldsOf(fields, State(Default(fields), {}), s))
    ensures IsDefaultSlot(fields[k], Decode(fields, s).value[k])
  {
    UnnamedKept(fields, Default(fields), s, k);
    DefaultMessageIs(fields);
  }

  // ---- submessages ----

  /** A field on the wire with a length prefix. */
  function Chunk(f: Field, body: seq<Byte>): seq<Byte>
  {
    Tag(WT_STRING, f.tag) + Delimited(body)
  }

  /** A submessage is decoded over the one that is there; an array's item, over defaults. */
  lemma SubmessageOver(f: Field, prev: Value, m: Message, body: seq<Byte>, t: seq<Byte>)
    requires f.ltype.LSubmessage? && |body| < U32 && |m| == |f.sub|
    requires if f.htype.Repeated? then m == Default(f.sub) else prev == Msg(m)
    ensures DecodeValue(f, prev, Delimited(body) + t) ==
            match DecodeInto(f.sub, m, body) case Err => Err case Ok(now, _) => Ok(Msg(now), t)
  {
    PbRoundTrip.DelimitedRead(body, t);
  }

  /** Members of a submessage that its body does not name keep what they had, or their defaults in a new one. */
  lemma NestedUnnamed(f: Field, prev: Value, m: Message, body: seq<Byte>, t: seq<Byte>, k: nat)
    requires f.ltype.LSubmessage? && |body| < U32 && |m| == |f.sub| && k < |f.sub|
    requires if f.htype.Repeated? then m == Default(f.sub) else prev == Msg(m)
    requires DecodeValue(f, prev, Delimited(body) + t).Ok?
    requires Unnamed(f.sub, k, FieldsOf(f.sub, State(m, {}), body))
    ensures var v := DecodeValue(f, prev, Delimited(body) + t).value;
            && v.Msg? && |v.slots| == |f.sub| && v.slots[k] == m[k]
            && (m == Default(f.sub) && !InUnion(f.sub, k) ==> IsDefaultSlot(f.sub[k], v.slots[k]))
  {
    SubmessageOver(f, prev, m, body, t);
    UnnamedKept(f.sub, m, body, k);
    DefaultMessageIs(f.sub);
  }

  /** The slot of a submessage field that is no array and no union. */
  function SubSlot(f: Field, m: Message): Slot
  {
    if f.htype.Optional? && f.sizeOffset != 0 then Flagged(true, Msg(m)) else Plain(Msg(m))
  }

  predicate HoldsMessage(f: Field, slot: Slot, m: Message)
  {
    (slot.Plain? || slot.Flagged?) && slot.v == Msg(m) && |m| == |f.sub|
  }

  /** A submessage field decoded in its message. */
  lemma SubmessageStep(fields: seq<Field>, i: nat, st: State, m: Message, body: seq<Byte>, t: seq<Byte>)
    requires WellFormed(fields) && i < |fields| == |st.msg| && fields[i].ltype.LSubmessage? && |body| < U32
    requires (fields[i].htype.Required? || fields[i].htype.Optional?) && HoldsMessage(fields[i], st.msg[i], m)
    ensures DecodeLoop(fields, st, Chunk(fields[i], body) + t) ==
            match DecodeInto(fields[i].sub, m, body)
            case Err => Err
            case Ok(now, _) =>
              DecodeLoop(fields, State(st.msg[i := SubSlot(fields[i], now)], MarkSeen(fields, i, st.seen)), t)
  {
    var f := fields[i];
    assert Chunk(f, body) + t == Tag(WT_STRING, f.tag) + (Delimited(body) + t);
    PbRoundTrip.TagStep(fields, i, WT_STRING, st, Delimited(body) + t);
    SubmessageOver(f, Msg(m), m, body, t);
  }

  /**
  A submessage that comes in two fields is the one that comes in one, merged member by member: as long as the
  first part is accepted and does not stop at a zero key. The second part has to name the required fields
  of the submessage again; if it does not, the message is refused.
  */
  lemma SubmessageMerges(fields: seq<Field>, i: nat, st: State, m: Message, x: seq<Byte>, y: seq<Byte>, t: seq<Byte>)
    requires WellFormed(fields) && i < |fields| == |st.msg| && fields[i].ltype.LSubmessage? && |x| + |y| < U32
    requires (fields[i].htype.Required? || fields[i].htype.Optional?) && HoldsMessage(fields[i], st.msg[i], m)
    requires DecodeInto(fields[i].sub, m, x).Ok? && !StopsEarly(fields[i].sub, State(m, {}), x)
    ensures var f := fields[i];
            var half := State(DecodeInto(f.sub, m, x).value, {});
            DecodeLoop(fields, st, Chunk(f, x) + (Chunk(f, y) + t)) ==
            if AllNamed(f.sub, FieldsOf(f.sub, half, y)) then DecodeLoop(fields, st, Chunk(f, x + y) + t) else Err
  {
    hide DecodeLoop, DecodeInto, WellFormed, StopsEarly, Chunk, MarkSeen, FieldsOf;
    var f := fields[i];
    var n := DecodeInto(f.sub, m, x).value;
    var st' := State(st.msg[i := SubSlot(f, n)], MarkSeen(fields, i, st.seen));
    SubmessageStep(fields, i, st, m, x, Chunk(f, y) + t);
    SubmessageStep(fields, i, st', n, y, t);
    SubmessageStep(fields, i, st, m, x + y, t);
    MergeExact(f.sub, m, x, y);
    SubDistinct(fields, i);
    RequiredFields(f.sub, n, y);
    MarkTwice(fields, i, st.seen);
    var now := DecodeInto(f.sub, n, y);
    if now.Ok? { PbRoundTrip.UpdateTwice(st.msg, i, SubSlot(f, n), SubSlot(f, now.value)); }
  }

  lemma SubDistinct(fields: seq<Field>, i: nat)
    requires WellFormed(fields) && i < |fields|
    ensures DistinctTags(fields[i].sub)
  {
    var sub := fields[i].sub;
    assert WellFormedField(fields[i]);
    assert WellFormed(sub);
    forall j, k | 0 <= j < k < |sub| ensures sub[j].tag != sub[k].tag {
    }
  }

  lemma MarkTwice(fields: seq<Field>, i: nat, seen: set<nat>)
    requires i < |fields|
    ensures MarkSeen(fields, i, MarkSeen(fields, i, seen)) == MarkSeen(fields, i, seen)
  {
  }

  // ---- everything else is replaced ----

  /** A field whose new value does not depend on what was there. */
  predicate Replaces(f: Field)
  {
    f.htype.OneOf? || ((f.htype.Required? || f.htype.Optional?) && !f.ltype.LSubmessage?)
  }

  lemma OldIgnored(f: Field, w: nat, slot: Slot, slot': Slot, s: seq<Byte>)
    requires Replaces(f)
    ensures DecodeField(f, w, slot, s) == DecodeField(f, w, slot', s)
  {
    if !f.htype.OneOf? {
      assert DecodeValue(f, PrevValue(f, slot), s) == DecodeValue(f, PrevValue(f, slot'), s);
    }
  }

  /**
  The last one counts: a field, or another member of its union, that comes again makes the first one as good
  as never sent.
  */
  lemma LastCounts(fields: seq<Field>, i: nat, j: nat, st: State, w: nat, a: seq<Byte>, w': nat, b: seq<Byte>)
    requires WellFormed(fields) && i < |fields| && j < |fields| == |st.msg| && w < 8 && w' < 8
    requires Leader(fields, i) == Leader(fields, j) && Replaces(fields[i]) && Replaces(fields[j])
    requires DecodeField(fields[i], w, st.msg[Leader(fields, i)], a).Ok?
    requires DecodeField(fields[i], w, st.msg[Leader(fields, i)], a).rest == []
    ensures var again := Tag(w', fields[j].tag) + b;
            DecodeLoop(fields, st, Tag(w, fields[i].tag) + (a + again)) == DecodeLoop(fields, st, again)
  {
    hide DecodeLoop, DecodeField, WellFormed, Tag, Replaces;
    var k, again := Leader(fields, i), Tag(w', fields[j].tag) + b;
    var r := DecodeField(fields[i], w, st.msg[k], a);
    FieldLocal(fields[i], w, st.msg[k], a, again);
    assert Used(a, []) == a;
    PbRoundTrip.TagStep(fields, i, w, st, a + again);
    var st' := State(st.msg[k := r.value], MarkSeen(fields, i, st.seen));
    PbRoundTrip.TagStep(fields, j, w', st', b);
    PbRoundTrip.TagStep(fields, j, w', st, b);
    OldIgnored(fields[j], w', st'.msg[k], st.msg[k], b);
    SameMarks(fields, i, j, st.seen);
    var now := DecodeField(fields[j], w', st.msg[k], b);
    if now.Ok? { PbRoundTrip.UpdateTwice(st.msg, k, r.value, now.value); }
  }

  lemma SameMarks(fields: seq<Field>, i: nat, j: nat, seen: set<nat>)
    requires i < |fields| && j < |fields| && Leader(fields, i) == Leader(fields, j)
    ensures MarkSeen(fields, j, MarkSeen(fields, i, seen)) == MarkSeen(fields, j, seen)
  {
    if i != j { SharedLeader(fields, i, j); }
  }

  // ---- arrays of numbers ----

  /** What a repeated number can come in: a packed field of several, or a field of its own. */
  datatype Piece = Packed(items: seq<Value>) | Lone(item: Value)

  function PieceItems(p: Piece): seq<Value> { if p.Packed? then p.items else [p.item] }

  /** Numbers the field holds and the encoder writes, in fewer bytes than a length prefix can tell. */
  predicate GoodPiece(f: Field, p: Piece)
  {
    (forall x :: x in PieceItems(p) ==> StoredValue(f, x) && EncodeValue(f, x).Bytes?) &&
    (p.Packed? ==> |PackedBytes(f, p.items)| < U32)
  }

  /** The numbers one behind the other. */
  function PackedBytes(f: Field, items: seq<Value>): seq<Byte>
    requires forall x :: x in items ==> StoredValue(f, x)
  {
    if items == [] then []
    else (match EncodeValue(f, items[0]) case Bytes(b) => b case Failed => []) + PackedBytes(f, items[1..])
  }

  function PieceBytes(f: Field, p: Piece): seq<Byte>
    requires GoodPiece(f, p)
  {
    match p
    case Packed(items) => Chunk(f, PackedBytes(f, items))
    case Lone(x) => Tag(WireType(f.ltype), f.tag) + EncodeValue(f, x).b
  }

  function AllPieces(f: Field, ps: seq<Piece>): seq<Byte>
    requires forall p :: p in ps ==> GoodPiece(f, p)
  {
    if ps == [] then [] else PieceBytes(f, ps[0]) + AllPieces(f, ps[1..])
  }

  function AllItems(ps: seq<Piece>): seq<Value>
  {
    if ps == [] then [] else PieceItems(ps[0]) + AllItems(ps[1..])
  }

  /** A number is read back. */
  lemma NumberBack(f: Field, x: Value, prev: Value, t: seq<Byte>)
    requires Packable(f.ltype) && StoredValue(f, x) && EncodeValue(f, x).Bytes?
    ensures EncodeValue(f, x).b != [] && DecodeValue(f, prev, EncodeValue(f, x).b + t) == Ok(x, t)
  {
    if f.ltype.LFixed32? || f.ltype.LFixed64? {
      PbRoundTrip.FixedValueRoundTrip(f, x, prev, t);
    } else {
      PbRoundTrip.IntegerRoundTrip(f, x, prev, t);
    }
  }

  /** The packed loop appends all the numbers, or fails because there are too many. */
  lemma {:induction false} PackedAppends(f: Field, done: seq<Value>, items: seq<Value>)
    requires Packable(f.ltype) && |done| <= f.arraySize
    requires forall x :: x in items ==> StoredValue(f, x) && EncodeValue(f, x).Bytes?
    ensures DecodePacked(f, done, PackedBytes(f, items)) ==
            if |done| + |items| <= f.arraySize then Ok(done + items, []) else Err
    decreases |items|
  {
    hide EncodeValue, DecodeValue, StoredValue;
    if items == [] {
      assert done + [] == done;
    } else {
      var b, tail := EncodeValue(f, items[0]).b, PackedBytes(f, items[1..]);
      NumberBack(f, items[0], Num(0), tail);
      assert b + tail != [];
      if |done| < f.arraySize {
        PackedAppends(f, done + [items[0]], items[1..]);
        assert items == [items[0]] + items[1..];
        PbRoundTrip.Append(done, items[0], items[1..]);
      }
    }
  }

  /** One field on the wire, packed or not, appends its numbers if they fit. */
  lemma PieceAppends(f: Field, done: seq<Value>, p: Piece, t: seq<Byte>)
    requires f.htype.Repeated? && Packable(f.ltype) && |done| <= f.arraySize && GoodPiece(f, p)
    ensures var w := if p.Packed? then WT_STRING else WireType(f.ltype);
            var b := if p.Packed? then Delimited(PackedBytes(f, p.items)) else EncodeValue(f, p.item).b;
            DecodeField(f, w, Many(done), b + t) ==
            if |done| + |PieceItems(p)| <= f.arraySize then Ok(Many(done + PieceItems(p)), t) else Err
  {
    match p
    case Packed(items) =>
      PbRoundTrip.DelimitedRead(PackedBytes(f, items), t);
      PackedAppends(f, done, items);
    case Lone(x) =>
      assert x in PieceItems(p);
      NumberBack(f, x, DefaultValue(f), t);
  }

  /** The same in its message. */
  lemma PieceStep(fields: seq<Field>, i: nat, st: State, done: seq<Value>, p: Piece, t: seq<Byte>)
    requires WellFormed(fields) && i < |fields| == |st.msg| && st.msg[i] == Many(done) && GoodPiece(fields[i], p)
    requires fields[i].htype.Repeated? && Packable(fields[i].ltype) && |done| <= fields[i].arraySize
    ensures DecodeLoop(fields, st, PieceBytes(fields[i], p) + t) ==
            if |done| + |PieceItems(p)| <= fields[i].arraySize
            then DecodeLoop(fields, st.(msg := st.msg[i := Many(done + PieceItems(p))]), t) else Err
  {
    hide PackedBytes, EncodeValue, DecodeField, DecodeLoop, StoredValue, WellFormed;
    var f := fields[i];
    PieceAppends(f, done, p, t);
    match p
    case Packed(items) =>
      var b := Delimited(PackedBytes(f, items));
      assert PieceBytes(f, p) + t == Tag(WT_STRING, f.tag) + (b + t);
      PbRoundTrip.TagStep(fields, i, WT_STRING, st, b + t);
    case Lone(x) =>
      assert x in PieceItems(p);
      var b := EncodeValue(f, x).b;
      assert PieceBytes(f, p) + t == Tag(WireType(f.ltype), f.tag) + (b + t);
      PbRoundTrip.TagStep(fields, i, WireType(f.ltype), st, b + t);
  }

  /**
  A repeated number may come in any mix of packed fields and fields of its own: all are appended to what is
  there, in order, if they fit into the array, and otherwise the message is refused.
  */
  lemma {:induction false} RepeatedAppends(fields: seq<Field>, i: nat, st: State, done: seq<Value>, ps: seq<Piece>,
                                           t: seq<Byte>)
    requires WellFormed(fields) && i < |fields| == |st.msg| && st.msg[i] == Many(done)
    requires fields[i].htype.Repeated? && Packable(fields[i].ltype) && |done| <= fields[i].arraySize
    requires forall p :: p in ps ==> GoodPiece(fields[i], p)
    ensures DecodeLoop(fields, st, AllPieces(fields[i], ps) + t) ==
            if |done| + |AllItems(ps)| <= fields[i].arraySize
            then DecodeLoop(fields, st.(msg := st.msg[i := Many(done + AllItems(ps))]), t) else Err
    decreases |ps|
  {
    hide DecodeLoop, WellFormed, PieceBytes, GoodPiece;
    var f := fields[i];
    if ps == [] {
      assert AllPieces(f, ps) + t == t && done + [] == done && st.msg[i := Many(done)] == st.msg;
    } else {
      var p, tail := ps[0], AllPieces(f, ps[1..]) + t;
      PbRoundTrip.Assoc(PieceBytes(f, p), AllPieces(f, ps[1..]), t);
      PieceStep(fields, i, st, done, p, tail);
      if |done| + |PieceItems(p)| <= f.arraySize {
        var more := done + PieceItems(p);
        var st' := st.(msg := st.msg[i := Many(more)]);
        RepeatedAppends(fields, i, st', more, ps[1..], t);
        PbRoundTrip.Assoc(done, PieceItems(p), AllItems(ps[1..]));
        PbRoundTrip.UpdateTwice(st.msg, i, Many(more), Many(more + AllItems(ps[1..])));
      }
    }
  }
}
