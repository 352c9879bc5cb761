/**
Receiving DTLS handshake messages: the ring of seven messages under reassembly and the in-order
delivery out of it (sections 4.2.2, 4.2.3 and 4.2.6 of RFC 6347).
*/
module DtlsReceiver {
  import opened Bytes
  import opened AeadContext
  import opened DtlsFragment

  const MAX_HANDSHAKE_FLIGHT: nat := 7

  /** What is known of one message: which body bytes are in, and the bytes. */
  datatype Assembly = Assembly(kind: Byte, msgLen: nat, covered: set<nat>, body: Octets)

  datatype Outcome = Taken | Ignored | Refused

  class Receiver {
    var handshakeReadSeq: nat
    var rEpoch: nat
    var hasMessage: bool
    var hasChangeCipherSpec: bool
    const maxMessageLen: nat
    const incoming: array<HmFragment?>
    ghost var Repr: set<object>

    ghost predicate Valid()
      reads this, incoming, Repr
    {
      && incoming.Length == MAX_HANDSHAKE_FLIGHT && handshakeReadSeq < U16
      && this !in Repr && incoming !in Repr
      && (forall i :: 0 <= i < MAX_HANDSHAKE_FLIGHT ==> SlotValid(i))
      && (forall i, j :: 0 <= i < j < MAX_HANDSHAKE_FLIGHT ==> Separate(i, j))
      && (hasMessage ==> CurrentComplete())
    }

    /** A message in slot `i` belongs there and lies in the window that starts at `handshakeReadSeq`. */
    ghost predicate SlotValid(i: nat)
      requires i < incoming.Length
      reads this, incoming, Repr
    {
      var f := incoming[i];
      f != null ==>
        && f in Repr && f.Footprint() <= Repr && f.Valid()
        && f.seqnum % MAX_HANDSHAKE_FLIGHT == i
        && handshakeReadSeq <= f.seqnum < handshakeReadSeq + MAX_HANDSHAKE_FLIGHT
    }

    ghost predicate Separate(i: nat, j: nat)
      requires i < incoming.Length && j < incoming.Length
      reads this, incoming, Repr
    {
      var f, g := incoming[i], incoming[j];
      f != null && g != null && f in Repr && g in Repr ==> f.Footprint() !! g.Footprint()
    }

    ghost predicate CurrentComplete()
      requires incoming.Length == MAX_HANDSHAKE_FLIGHT
      reads this, incoming, Repr
    {
      var f := incoming[handshakeReadSeq % MAX_HANDSHAKE_FLIGHT];
      f != null && f in Repr && f.reassembly == null
    }

    /** What has been received of message `k`. */
    ghost function View(k: nat): Option<Assembly>
      requires Valid()
      reads this, incoming, Repr
    {
      var f := incoming[k % MAX_HANDSHAKE_FLIGHT];
      if f != null && f.seqnum == k
      then assert SlotValid(k % MAX_HANDSHAKE_FLIGHT); Some(Assembly(f.kind, f.msgLen, f.covered, f.Body()))
      else None
    }

    constructor (maxMessageLen: nat)
      ensures Valid() && handshakeReadSeq == 0 && rEpoch == 0 && !hasMessage && !hasChangeCipherSpec
      ensures this.maxMessageLen == maxMessageLen && fresh(incoming) && Repr == {}
      ensures forall k :: View(k) == None
    {
      handshakeReadSeq, rEpoch, hasMessage, hasChangeCipherSpec := 0, 0, false, false;
      this.maxMessageLen := maxMessageLen;
      incoming := new HmFragment?[MAX_HANDSHAKE_FLIGHT](_ => null);
      Repr := {};
    }

    lemma NotItsOwn()
      requires Valid()
      ensures this !in Repr && incoming !in Repr
    {
    }

    /** Whether a fragment with header `h` has a place in the ring and agrees with what is there. */
    ghost predicate Fits(h: Header)
      requires Valid()
      reads this, incoming, Repr
    {
      && handshakeReadSeq <= h.seqnum < handshakeReadSeq + MAX_HANDSHAKE_FLIGHT
      && (View(h.seqnum).Some? ==> View(h.seqnum).value.kind == h.kind && View(h.seqnum).value.msgLen == h.msgLen)
    }

    /** `dtls1_get_incoming_message`: the message a fragment belongs to, made if there is none yet. */
    method GetIncomingMessage(h: Header) returns (frag: HmFragment?)
      requires Valid() && GoodHeader(h)
      modifies this`Repr, incoming
      ensures Valid() && fresh(Repr - old(Repr)) && old(Repr) <= Repr
      ensures frag != null <==> old(Fits(h))
      ensures frag == null ==> unchanged(this, incoming)
      ensures frag != null ==>
        && frag == incoming[h.seqnum % MAX_HANDSHAKE_FLIGHT] && frag in Repr
        && frag.seqnum == h.seqnum && frag.kind == h.kind && frag.msgLen == h.msgLen
        && (old(View(h.seqnum)).None? ==> frag.covered == {})
        && (old(View(h.seqnum)).Some? ==> View(h.seqnum) == old(View(h.seqnum)))
      ensures forall k :: k != h.seqnum ==> View(k) == old(View(k))
    {
      if h.seqnum < handshakeReadSeq || h.seqnum - handshakeReadSeq >= MAX_HANDSHAKE_FLIGHT {
        return null;
      }
      var idx := h.seqnum % MAX_HANDSHAKE_FLIGHT;
      assert SlotValid(idx);
      frag := incoming[idx];
      if frag != null {
        SameSlot(frag.seqnum, h.seqnum, handshakeReadSeq);
        if frag.kind != h.kind || frag.msgLen != h.msgLen {
          // "fragment mismatch"
          return null;
        }
        return frag;
      }
      frag := NewMessage(h, idx);
    }

    /** The empty slot is taken. */
    method NewMessage(h: Header, idx: nat) returns (frag: HmFragment)
      requires Valid() && GoodHeader(h) && idx == h.seqnum % MAX_HANDSHAKE_FLIGHT && incoming[idx] == null
      requires handshakeReadSeq <= h.seqnum < handshakeReadSeq + MAX_HANDSHAKE_FLIGHT
      modifies this`Repr, incoming
      ensures Valid() && fresh(Repr - old(Repr)) && old(Repr) <= Repr
      ensures frag == incoming[idx] && frag in Repr
      ensures frag.seqnum == h.seqnum && frag.kind == h.kind && frag.msgLen == h.msgLen && frag.covered == {}
      ensures forall k :: k != h.seqnum ==> View(k) == old(View(k))
    {
      frag := new HmFragment(h);
      incoming[idx] := frag;
      Repr := Repr + frag.Footprint();
      assert SlotValid(idx);
      forall i | 0 <= i < MAX_HANDSHAKE_FLIGHT && i != idx
        ensures SlotValid(i) && Separate(i, idx) && Separate(idx, i)
      {
        assert old(SlotValid(i));
      }
      forall i, j | 0 <= i < j < MAX_HANDSHAKE_FLIGHT ensures Separate(i, j) {
        assert old(Separate(i, j)) && old(SlotValid(i)) && old(SlotValid(j));
      }
    }

    /** One turn of the loop of `dtls1_open_handshake`: a fragment is taken, ignored or an error. */
    method AcceptFragment(h: Header, body: Octets) returns (outcome: Outcome)
      requires Valid() && GoodHeader(h) && |body| == h.fragLen
      modifies this`Repr, incoming, Repr
      ensures Valid() && fresh(Repr - old(Repr))
      ensures outcome == old(Expected(h))
      ensures outcome != Taken ==> forall k :: View(k) == old(View(k))
      ensures outcome == Taken ==> forall k :: k != h.seqnum ==> View(k) == old(View(k))
      ensures outcome == Taken ==>
        && View(h.seqnum).Some?
        && Extended(old(View(h.seqnum)), h, body, View(h.seqnum).value)
    {
      if h.fragOff > h.msgLen || h.fragOff + h.fragLen > h.msgLen || h.msgLen > maxMessageLen {
        // "excessive message size"
        return Refused;
      }
      if rEpoch == 1 && h.seqnum != handshakeReadSeq {
        // the encrypted epoch has only one handshake message
        return Refused;
      }
      if h.seqnum < handshakeReadSeq || h.seqnum > handshakeReadSeq + MAX_HANDSHAKE_FLIGHT {
        // from the past, or too far in the future
        return Ignored;
      }
      var frag := GetIncomingMessage(h);
      if frag == null {
        return Refused;
      }
      Store(frag, h, body);
      return Taken;
    }

    /** A fragment's body goes into its message, unless that is already assembled. */
    method Store(frag: HmFragment, h: Header, body: Octets)
      requires Valid() && frag == incoming[h.seqnum % MAX_HANDSHAKE_FLIGHT]
      requires frag in Repr && frag.seqnum == h.seqnum && frag.kind == h.kind && frag.msgLen == h.msgLen
      requires |body| == h.fragLen && h.fragOff + h.fragLen <= h.msgLen
      modifies Repr
      ensures Valid() && unchanged(this, incoming)
      ensures forall k :: k != h.seqnum ==> View(k) == old(View(k))
      ensures View(h.seqnum).Some? && Extended(old(View(h.seqnum)), h, body, View(h.seqnum).value)
    {
      ghost var idx, was := h.seqnum % MAX_HANDSHAKE_FLIGHT, View(h.seqnum).value;
      assert SlotValid(idx);
      if frag.reassembly == null {
        WholeStays(was, h, body);
        return;
      }
      label Copying:
      frag.Receive(h.fragOff, body);
      assert SlotValid(idx);
      forall i | 0 <= i < MAX_HANDSHAKE_FLIGHT && i != idx
        ensures SlotValid(i) && incoming[i] == old@Copying(incoming[i])
        ensures incoming[i] != null ==> incoming[i].Footprint() == old@Copying(incoming[i].Footprint())
        ensures incoming[i] != null ==> incoming[i].covered == old@Copying(incoming[i].covered)
        ensures incoming[i] != null ==> incoming[i].Body() == old@Copying(incoming[i].Body())
      {
        assert old@Copying(SlotValid(i)) && old@Copying(if i < idx then Separate(i, idx) else Separate(idx, i));
      }
      forall i, j | 0 <= i < j < MAX_HANDSHAKE_FLIGHT ensures Separate(i, j) {
        assert old@Copying(Separate(i, j)) && old@Copying(SlotValid(i)) && old@Copying(SlotValid(j));
      }
      NewBytes(was, h, body, View(h.seqnum).value);
    }

    /** What becomes of a fragment. One exactly seven ahead passes the first filter and is then refused. */
    ghost function Expected(h: Header): Outcome
      requires Valid()
      reads this, incoming, Repr
    {
      if h.fragOff + h.fragLen > h.msgLen || h.msgLen > maxMessageLen then Refused
      else if rEpoch == 1 && h.seqnum != handshakeReadSeq then Refused
      else if h.seqnum < handshakeReadSeq || h.seqnum > handshakeReadSeq + MAX_HANDSHAKE_FLIGHT then Ignored
      else if Fits(h) then Taken
      else Refused
    }

    /** `dtls1_get_message`: the current message, once it is whole. */
    method GetMessage() returns (m: Option<Delivery>)
      requires Valid()
      modifies this`hasMessage
      ensures Valid() && (hasMessage <==> m.Some?)
      ensures m.Some? <==> View(handshakeReadSeq).Some? && IsWhole(View(handshakeReadSeq).value)
      ensures m.Some? ==>
        var a := View(handshakeReadSeq).value;
        m.value == Delivery(a.kind, a.body, MessageBytes(a.kind, handshakeReadSeq, a.body))
      ensures forall k :: View(k) == old(View(k))
    {
      var idx := handshakeReadSeq % MAX_HANDSHAKE_FLIGHT;
      var frag := incoming[idx];
      assert SlotValid(idx);
      if frag == null || frag.reassembly != null {
        assert frag != null ==> frag.seqnum == handshakeReadSeq by {
          if frag != null { SameSlot(frag.seqnum, handshakeReadSeq, handshakeReadSeq); }
        }
        SetHasMessage(false);
        return None;
      }
      SameSlot(frag.seqnum, handshakeReadSeq, handshakeReadSeq);
      SetHasMessage(true);
      assert frag.data[..] == frag.data[..HM_HEADER_LENGTH] + frag.Body();
      return Some(Delivery(frag.kind, frag.data[HM_HEADER_LENGTH..], frag.data[..]));
    }

    /** Only a flag changes; the messages do not depend on it. */
    method SetHasMessage(flag: bool)
      requires Valid() && (flag ==> CurrentComplete())
      modifies this`hasMessage
      ensures Valid() && hasMessage == flag
      ensures forall k :: View(k) == old(View(k))
    {
      label Before:
      hasMessage := flag;
      forall i | 0 <= i < MAX_HANDSHAKE_FLIGHT ensures SlotValid(i) { assert old@Before(SlotValid(i)); }
      forall i, j | 0 <= i < j < MAX_HANDSHAKE_FLIGHT ensures Separate(i, j) { assert old@Before(Separate(i, j)); }
    }

    /** `dtls1_next_message`: the slot is freed for the message seven further on. */
    method NextMessage()
      requires Valid() && hasMessage && handshakeReadSeq + 1 < U16
      modifies this`handshakeReadSeq, this`hasMessage, incoming
      ensures Valid() && !hasMessage && handshakeReadSeq == old(handshakeReadSeq) + 1
      ensures View(old(handshakeReadSeq)) == None
      ensures forall k :: k != old(handshakeReadSeq) ==> View(k) == old(View(k))
    {
      var index := handshakeReadSeq % MAX_HANDSHAKE_FLIGHT;
      assert SlotValid(index);
      label Dropping:
      ghost var dropped := incoming[index];
      SameSlot(dropped.seqnum, handshakeReadSeq, handshakeReadSeq);
      incoming[index] := null;
      handshakeReadSeq := handshakeReadSeq + 1;
      hasMessage := false;
      forall i | 0 <= i < MAX_HANDSHAKE_FLIGHT ensures SlotValid(i) {
        assert old@Dropping(SlotValid(i));
        if i != index && incoming[i] != null {
          assert incoming[i].seqnum != dropped.seqnum;
        }
      }
      forall i, j | 0 <= i < j < MAX_HANDSHAKE_FLIGHT ensures Separate(i, j) {
        assert old@Dropping(Separate(i, j));
      }
    }

    /** Everything received so far is part of the messages `q` that were sent. */
    ghost predicate Agrees(q: seq<Message>)
      requires Valid()
      reads this, incoming, Repr
    {
      forall k :: View(k).Some? ==> PartOf(View(k).value, q, k)
    }

    /** Nothing received is forgotten. */
    twostate predicate Grows()
      requires old(Valid())
      reads this, incoming, Repr
    {
      Valid() && forall k :: old(View(k)).Some? ==> View(k).Some? && old(View(k)).value.covered <= View(k).value.covered
    }

    /** The range of the fragment at the front of `cbs` has been received, if it is in the window. */
    ghost predicate HasFragment(cbs: Octets)
      requires Valid()
      reads this, incoming, Repr
    {
      var f := ParseFragment(cbs);
      f.Some? &&
      var h := f.value.header;
      handshakeReadSeq <= h.seqnum < handshakeReadSeq + MAX_HANDSHAKE_FLIGHT ==>
        View(h.seqnum).Some? && FragmentRange(h) <= View(h.seqnum).value.covered
    }

    /** A record of fragments of the messages sent, none out of place, and none longer than is allowed. */
    ghost predicate Untroubled(q: seq<Message>, record: Octets)
      requires Valid()
      reads this, incoming, Repr
    {
      && Agrees(q) && AllGenuine(q, record) && InPlace(record, handshakeReadSeq, rEpoch == 1)
      && LongestOf(q) <= maxMessageLen
    }

    /** One fragment off the front of a record. */
    method OpenFragment(cbs: Octets, ghost q: seq<Message>) returns (ok: bool, rest: Octets)
      requires Valid() && |cbs| > 0
      modifies this`Repr, incoming, Repr
      ensures Valid() && fresh(Repr - old(Repr)) && Grows()
      ensures ok ==> ParseFragment(cbs).Some? && rest == ParseFragment(cbs).value.rest && HasFragment(cbs)
      ensures old(Agrees(q)) && AllGenuine(q, cbs) ==> Agrees(q)
      ensures old(Untroubled(q, cbs)) ==> ok
    {
      rest := [];
      var f := ParseFragment(cbs);
      if f.None? {
        // "bad handshake record"
        return false, rest;
      }
      HeaderFields(cbs);
      ghost var h := f.value.header;
      ghost var before := View(h.seqnum);
      var outcome := AcceptFragment(f.value.header, f.value.body);
      if AllGenuine(q, cbs) && old(Agrees(q)) && outcome == Taken {
        ExtendedPartOf(q, before, h, f.value.body, View(h.seqnum).value);
      }
      ok := outcome != Refused;
      rest := f.value.rest;
    }

    /** The fragment loop of `dtls1_open_handshake` on the body of one record. */
    method OpenFragments(record: Octets, ghost q: seq<Message>) returns (ok: bool)
      requires Valid()
      modifies this`Repr, incoming, Repr
      ensures Valid() && fresh(Repr - old(Repr)) && Grows()
      // fragments of the messages sent never put anything else in, and are refused only at the edge
      ensures old(Agrees(q)) && AllGenuine(q, record) ==> Agrees(q)
      ensures old(Untroubled(q, record)) ==> ok
      ensures ok && record != [] ==> HasFragment(record)
    {
      var cbs := record;
      while |cbs| > 0
        invariant Valid() && fresh(Repr - old(Repr)) && Grows()
        invariant old(Agrees(q)) && AllGenuine(q, record) ==> Agrees(q) && AllGenuine(q, cbs)
        invariant InPlace(record, handshakeReadSeq, rEpoch == 1) ==> InPlace(cbs, handshakeReadSeq, rEpoch == 1)
        invariant cbs == record || HasFragment(record)
        decreases |cbs|
      {
        ok, cbs := OpenFragment(cbs, q);
        if !ok { return; }
      }
      return true;
    }

    /** `dtls1_open_handshake` on a record the record layer let through. */
    method OpenHandshake(kind: Byte, record: Octets, nullCipher: bool, ghost q: seq<Message>) returns (r: OpenResult)
      requires Valid()
      modifies this`Repr, this`hasChangeCipherSpec, incoming, Repr
      ensures Valid() && fresh(Repr - old(Repr)) && Grows()
      ensures kind == RT_APPLICATION_DATA ==> r == if nullCipher then OpenError else OpenDiscard
      ensures kind == RT_CHANGE_CIPHER_SPEC ==>
        r == if nullCipher && record == [MT_CCS] then OpenSuccess else OpenError
      ensures hasChangeCipherSpec == (old(hasChangeCipherSpec) || (kind == RT_CHANGE_CIPHER_SPEC && r == OpenSuccess))
      ensures kind != RT_HANDSHAKE ==> forall k :: View(k) == old(View(k))
      ensures kind == RT_HANDSHAKE ==>
        r in {OpenSuccess, OpenError} && (old(Untroubled(q, record)) ==> r == OpenSuccess)
      ensures kind == RT_HANDSHAKE && r == OpenSuccess && record != [] ==> HasFragment(record)
      ensures old(Agrees(q)) && (kind == RT_HANDSHAKE ==> AllGenuine(q, record)) ==> Agrees(q)
    {
      if kind == RT_APPLICATION_DATA {
        return if nullCipher then OpenError else OpenDiscard;
      }
      if kind == RT_CHANGE_CIPHER_SPEC {
        if !nullCipher || |record| != 1 || record[0] != MT_CCS {
          return OpenError;
        }
        SetChangeCipherSpec(true);
        return OpenSuccess;
      }
      if kind != RT_HANDSHAKE {
        // "unexpected record"
        return OpenError;
      }
      var ok := OpenFragments(record, q);
      return if ok then OpenSuccess else OpenError;
    }

    method SetChangeCipherSpec(flag: bool)
      requires Valid()
      modifies this`hasChangeCipherSpec
      ensures Valid() && hasChangeCipherSpec == flag
      ensures forall k :: View(k) == old(View(k))
    {
      label Before:
      hasChangeCipherSpec := flag;
      forall i | 0 <= i < MAX_HANDSHAKE_FLIGHT ensures SlotValid(i) { assert old@Before(SlotValid(i)); }
      forall i, j | 0 <= i < j < MAX_HANDSHAKE_FLIGHT ensures Separate(i, j) { assert old@Before(Separate(i, j)); }
    }

    /** `dtls_has_unprocessed_handshake_data`. */
    method HasUnprocessedHandshakeData() returns (r: bool)
      requires Valid()
      ensures r <==> hasChangeCipherSpec || exists k: nat :: View(k).Some? && !(hasMessage && k == handshakeReadSeq)
    {
      if hasChangeCipherSpec {
        return true;
      }
      var current := handshakeReadSeq % MAX_HANDSHAKE_FLIGHT;
      for i := 0 to MAX_HANDSHAKE_FLIGHT
        invariant forall j :: 0 <= j < i && !(hasMessage && j == current) ==> incoming[j] == null
      {
        if !(hasMessage && i == current) && incoming[i] != null {
          ghost var k := incoming[i].seqnum;
          assert SlotValid(i);
          assert View(k).Some?;
          return true;
        }
      }
      forall k: nat | View(k).Some? ensures hasMessage && k == handshakeReadSeq {
        assert SlotValid(k % MAX_HANDSHAKE_FLIGHT);
        SameSlot(k, handshakeReadSeq, handshakeReadSeq);
      }
      return false;
    }

    /**
    The receiving half of `dtls1_set_read_state`: refused while anything but the current message is
    buffered, so nothing received under one epoch's keys is read under the next one's.
    */
    method SetReadState() returns (ok: bool)
      requires Valid() && rEpoch + 1 < U16
      modifies this`rEpoch
      ensures Valid() && rEpoch == (if ok then old(rEpoch) + 1 else old(rEpoch))
      ensures ok <==> !hasChangeCipherSpec && forall k :: View(k).Some? ==> hasMessage && k == handshakeReadSeq
      ensures forall k :: View(k) == old(View(k))
    {
      var leftover := HasUnprocessedHandshakeData();
      if leftover {
        return false;
      }
      label Before:
      rEpoch := rEpoch + 1;
      forall i | 0 <= i < MAX_HANDSHAKE_FLIGHT ensures SlotValid(i) { assert old@Before(SlotValid(i)); }
      forall i, j | 0 <= i < j < MAX_HANDSHAKE_FLIGHT ensures Separate(i, j) { assert old@Before(Separate(i, j)); }
      forall k: nat ensures View(k) == old@Before(View(k)) {}
      return true;
    }
  }

  datatype OpenResult = OpenSuccess | OpenDiscard | OpenPartial | OpenError

  const RT_CHANGE_CIPHER_SPEC: Byte := 20
  const RT_HANDSHAKE: Byte := 22
  const RT_APPLICATION_DATA: Byte := 23
  const MT_CCS: Byte := 1

  datatype Delivery = Delivery(kind: Byte, body: Octets, raw: Octets)

  // ---- fragments of the messages that were sent ----

  datatype Message = Message(kind: Byte, body: Octets)

  function FragmentRange(h: Header): set<nat> { Range(h.fragOff, h.fragOff + h.fragLen) }

  /** A fragment a sender of the messages `q` may produce: the right header over the right bytes. */
  predicate Genuine(q: seq<Message>, h: Header, body: Octets)
  {
    && h.seqnum < |q| && h.kind == q[h.seqnum].kind && h.msgLen == |q[h.seqnum].body|
    && h.fragOff + h.fragLen <= h.msgLen
    && body == q[h.seqnum].body[h.fragOff..h.fragOff + h.fragLen]
  }

  predicate AllGenuine(q: seq<Message>, record: Octets)
    decreases |record|
  {
    record != [] ==>
      var f := ParseFragment(record);
      f.Some? && Genuine(q, f.value.header, f.value.body) && AllGenuine(q, f.value.rest)
  }

  /**
  No fragment in the record is refused for its number: none is exactly seven messages ahead of the one
  expected, and in the encrypted epoch all belong to that one.
  */
  predicate InPlace(record: Octets, readSeq: nat, encrypted: bool)
    decreases |record|
  {
    var f := ParseFragment(record);
    f.Some? ==>
      && f.value.header.seqnum != readSeq + MAX_HANDSHAKE_FLIGHT
      && (encrypted ==> f.value.header.seqnum == readSeq)
      && InPlace(f.value.rest, readSeq, encrypted)
  }

  function LongestOf(q: seq<Message>): (n: nat)
    ensures forall m :: m in q ==> |m.body| <= n
  {
    if q == [] then 0
    else var n := LongestOf(q[1..]); if |q[0].body| > n then |q[0].body| else n
  }

  /** The bytes in are those of message `k`. */
  predicate PartOf(a: Assembly, q: seq<Message>, k: nat)
  {
    && k < |q| && a.kind == q[k].kind && a.msgLen == |q[k].body| == |a.body|
    && (forall i :: i in a.covered ==> i < |a.body|)
    && forall i :: i in a.covered && i < |a.body| ==> a.body[i] == q[k].body[i]
  }

  lemma ExtendedPartOf(q: seq<Message>, before: Option<Assembly>, h: Header, body: Octets, after: Assembly)
    requires |body| == h.fragLen && Genuine(q, h, body) && Extended(before, h, body, after)
    requires before.Some? ==> PartOf(before.value, q, h.seqnum)
    ensures PartOf(after, q, h.seqnum)
  {
    forall i | i in after.covered && i < |after.body| ensures after.body[i] == q[h.seqnum].body[i] {
      if h.fragOff <= i < h.fragOff + h.fragLen {
        assert body[i - h.fragOff] == q[h.seqnum].body[i];
      }
    }
  }

  /** A whole message that agrees with what was sent is what was sent. */
  lemma WholeIsSent(a: Assembly, q: seq<Message>, k: nat)
    requires IsWhole(a) && PartOf(a, q, k)
    ensures a.body == q[k].body && MessageBytes(a.kind, k, a.body) == MessageBytes(q[k].kind, k, q[k].body)
  {
    forall i: nat | i < |a.body| ensures a.body[i] == q[k].body[i] {
      assert i in a.covered;
    }
  }

  /** A message gains a fragment's bytes, unless it already has all of its own. */
  predicate Extended(before: Option<Assembly>, h: Header, body: Octets, after: Assembly)
    requires |body| == h.fragLen
  {
    && after.kind == h.kind && after.msgLen == h.msgLen == |after.body|
    && after.covered == (if before.Some? then before.value.covered else {}) + Range(h.fragOff, h.fragOff + h.fragLen)
    && forall i :: i in after.covered && i < |after.body| ==>
         if before.Some? && i in before.value.covered &&
            (IsWhole(before.value) || !(h.fragOff <= i < h.fragOff + h.fragLen))
         then i < |before.value.body| && after.body[i] == before.value.body[i]
         else h.fragOff <= i < h.fragOff + h.fragLen && after.body[i] == body[i - h.fragOff]
  }

  lemma WholeStays(a: Assembly, h: Header, body: Octets)
    requires IsWhole(a) && a.kind == h.kind && a.msgLen == h.msgLen == |a.body|
    requires |body| == h.fragLen && h.fragOff + h.fragLen <= h.msgLen
    ensures Extended(Some(a), h, body, a)
  {
  }

  lemma NewBytes(a: Assembly, h: Header, body: Octets, after: Assembly)
    requires !IsWhole(a) && a.kind == h.kind && a.msgLen == h.msgLen == |a.body|
    requires |body| == h.fragLen && h.fragOff + h.fragLen <= h.msgLen
    requires var covered := a.covered + Range(h.fragOff, h.fragOff + h.fragLen);
             after == Assembly(a.kind, a.msgLen, covered, Splice(a.body, h.fragOff, body))
    ensures Extended(Some(a), h, body, after)
  {
  }

  /** Every byte of the body is in. */
  predicate IsWhole(a: Assembly)
  {
    a.covered == Range(0, a.msgLen)
  }

  /** Two numbers in one window of seven that share a slot are equal. */
  lemma SameSlot(a: nat, b: nat, base: nat)
    requires base <= a < base + MAX_HANDSHAKE_FLIGHT && base <= b < base + MAX_HANDSHAKE_FLIGHT
    requires a % MAX_HANDSHAKE_FLIGHT == b % MAX_HANDSHAKE_FLIGHT
    ensures a == b
  {
  }
}
