/**
`SSLBuffer`: a byte queue over one allocation, with 16-bit offset, size and capacity. Bytes leave at
the front by moving the offset; the allocation carries slack so that record bodies can be aligned.

The class refines a queue as long as offset and capacity together fit in 16 bits, which is what
`Valid` adds to `Shape`. Otherwise consuming takes the offset past 2^16 and the front of the queue is
read from the wrong place: `OffsetWraps` says exactly when.
*/
module TlsBuffer {
  import opened Bytes
  import opened AeadContext

  const ALIGN_PAYLOAD: nat := 8

  /** `offset_ += (uint16_t)len` on a 16-bit offset. */
  function Advance(offset: nat, len: nat): nat
  {
    (offset + len % U16) % U16
  }

  /** What a `uint16_t` keeps of a number. */
  function Low16(n: nat): nat { n % U16 }

  /** `(0 - header_len - address) & (SSL3_ALIGN_PAYLOAD - 1)`. */
  function AlignOffset(headerLen: nat, address: nat): (offset: nat)
    ensures offset < ALIGN_PAYLOAD && (address + offset + headerLen) % ALIGN_PAYLOAD == 0
  {
    (-(headerLen + address) as int) % ALIGN_PAYLOAD
  }

  class SSLBuffer {
    var buf: array?<Byte>
    var offset: nat
    var size: nat
    var cap: nat
    // where in the allocation the queue really begins
    ghost var start: nat

    ghost function Memory(): set<object>
      reads this
    {
      if buf != null then {buf} else {}
    }

    /** The queue lies in the allocation, and the offset is the low 16 bits of its place. */
    ghost predicate Shape()
      reads this
    {
      && size <= cap && cap < U16 && offset == Low16(start)
      && (if buf == null then cap == 0 && start == 0 else start + cap <= buf.Length)
    }

    ghost predicate Valid()
      reads this
    {
      Shape() && offset == start && start + cap < U16
    }

    /** The bytes put in and not yet consumed. */
    ghost function Held(): (s: Octets)
      requires Shape()
      reads this, Memory()
    {
      if buf == null then [] else buf[start..start + size]
    }

    /** The bytes in the allocation right behind the queue. */
    ghost function Behind(n: nat): (s: Octets)
      requires Shape() && n <= cap - size
      reads this, Memory()
    {
      if n == 0 then [] else buf[start + size..start + size + n]
    }

    /** The queue. */
    ghost function Contents(): (s: Octets)
      requires Valid()
      reads this, Memory()
      ensures |s| == size
    {
      if buf == null then [] else buf[offset..offset + size]
    }

    constructor ()
      ensures Valid() && Contents() == [] && buf == null
    {
      buf, offset, size, cap, start := null, 0, 0, 0, 0;
    }

    method Clear()
      modifies this
      ensures Valid() && Contents() == [] && buf == null
    {
      buf, offset, size, cap, start := null, 0, 0, 0, 0;
    }

    /** `EnsureCap`; `address` is where the new allocation happens to lie. */
    method EnsureCap(headerLen: nat, newCap: nat, address: nat) returns (ok: bool)
      requires Valid()
      modifies this
      ensures ok <==> newCap < U16
      ensures !ok ==> unchanged(this)
      ensures ok ==> Shape() && Held() == old(Held()) && cap >= newCap && offset == start
      // a fresh allocation starts where its body is aligned, and may reach past 16 bits
      ensures ok && old(cap) < newCap ==> start == AlignOffset(headerLen, address) && cap == newCap
      ensures ok && old(cap) >= newCap ==> unchanged(this)
      ensures ok && (old(cap) >= newCap || AlignOffset(headerLen, address) + newCap < U16) ==>
                Valid() && Contents() == old(Contents())
      ensures buf == old(buf) || fresh(buf)
    {
      hide Advance, AlignOffset, Low16;
      if newCap > 0xffff {
        return false;
      }
      if cap >= newCap {
        return true;
      }
      var newOffset := AlignOffset(headerLen, address);
      SmallOffset(newOffset);
      buf := Moved(newOffset, newCap);
      offset, start := newOffset, newOffset;
      cap := newCap;
      return true;
    }

    /** A new allocation with the queue in it. */
    method Moved(newOffset: nat, newCap: nat) returns (newBuf: array<Byte>)
      requires Valid() && size <= newCap && newOffset < ALIGN_PAYLOAD
      ensures fresh(newBuf) && newBuf.Length == newCap + ALIGN_PAYLOAD - 1
      ensures newBuf[newOffset..newOffset + size] == Contents() == Held()
    {
      newBuf := new Byte[newCap + ALIGN_PAYLOAD - 1];
      if buf != null {
        Copy(newBuf, newOffset, buf[offset..offset + size]);
      }
    }

    /** What a caller does with `remaining()` before `DidWrite`: put bytes behind the queue. */
    method FillRemaining(data: Octets)
      requires Shape() && offset == start && |data| <= cap - size
      modifies Memory()
      ensures Shape() && Held() == old(Held()) && Behind(|data|) == data
    {
      if |data| > 0 {
        Copy(buf, offset + size, data);
        assert buf[offset..offset + size] == buf[..offset + size][offset..];
      }
    }

    lemma Joined(at: nat, end: nat)
      requires buf != null && start <= at <= end <= buf.Length
      ensures buf[start..end] == buf[start..at] + buf[at..end]
    {
    }

    /** `DidWrite`: bytes already in place become part of the queue; past the capacity it aborts. */
    method DidWrite(newSize: nat)
      requires Shape() && newSize <= cap - size
      modifies this`size
      ensures Shape() && size == old(size) + newSize
      ensures Held() == old(Held()) + old(Behind(newSize))
    {
      AndNone(Held());
      ghost var at := start + size;
      size := size + newSize;
      if newSize > 0 {
        Joined(at, at + newSize);
      }
    }

    /** Bytes placed behind the queue and counted in. */
    method Append(data: Octets)
      requires Valid() && |data| <= cap - size
      modifies this`size, Memory()
      ensures Valid() && Contents() == old(Contents()) + data
    {
      hide Low16, SSLBuffer.Behind;
      FillRemaining(data);
      DidWrite(|data|);
    }

    /**
    `Consume`: drop bytes at the front; more than there are aborts. The offset goes along with the
    queue as long as that begins below 2^16.
    */
    method Consume(len: nat)
      requires Shape() && len <= size
      modifies this`offset, this`size, this`cap, this`start
      ensures Shape() && Held() == old(Held())[len..] && start == old(start) + len && cap == old(cap) - len
      ensures size == old(size) - len
      ensures offset == start <==> old(start) + len < U16
      ensures old(Valid()) ==> Valid() && Contents() == old(Contents())[len..]
    {
      hide Advance, Low16;
      AdvanceWraps(start, len);
      offset := Advance(offset, len);
      size := size - len;
      cap := cap - len;
      start := start + len;
    }

    /** `DiscardConsumed`. */
    method DiscardConsumed()
      requires Valid()
      modifies this
      ensures Valid() && Contents() == old(Contents()) && (size == 0 ==> buf == null)
    {
      if size == 0 {
        Clear();
      }
    }
  }

  lemma SmallOffset(n: nat)
    requires n < ALIGN_PAYLOAD
    ensures Low16(n) == n
  {
  }

  /** The offset after consuming is the low 16 bits of the place after consuming. */
  lemma AdvanceWraps(start: nat, len: nat)
    requires len < U16
    ensures Advance(Low16(start), len) == Low16(start + len)
    ensures Low16(start + len) == start + len <==> start + len < U16
  {
  }

  /**
  How the offset goes wrong: any capacity that `EnsureCap` accepts and that reaches past 2^16 from the
  aligned start. Filled, and consumed up to that point, the buffer has its offset at zero while the
  queue goes on 2^16 bytes further: what is read next is what was written first.
  */
  method OffsetWraps(headerLen: nat, newCap: nat, address: nat, data: Octets) returns (b: SSLBuffer)
    requires PastWord(headerLen, newCap, address) && |data| == newCap
    ensures fresh(b) && b.Shape() && !b.Valid() && b.buf != null
    ensures b.size == AlignOffset(headerLen, address) + newCap - U16
    ensures b.offset == 0 && b.start == U16
    ensures b.Held() == data[newCap - b.size..]
    ensures b.buf[AlignOffset(headerLen, address)..U16] == data[..newCap - b.size]
  {
    hide Advance, AlignOffset, Low16;
    b := Filled(headerLen, newCap, address, data);
    var at := AlignOffset(headerLen, address);
    b.Joined(U16, at + newCap);
    FrontPart(b.buf[at..U16], b.buf[U16..at + newCap], data);
    WordIsZero();
    b.Consume(U16 - at);
  }

  /** A new buffer, filled to its capacity. */
  method Filled(headerLen: nat, newCap: nat, address: nat, data: Octets) returns (b: SSLBuffer)
    requires newCap < U16 && |data| == newCap
    ensures fresh(b) && fresh(b.Memory()) && b.Shape() && b.offset == b.start && b.size == b.cap == newCap
    ensures newCap > 0 ==> b.start == AlignOffset(headerLen, address)
    ensures b.Held() == data
  {
    hide Advance, AlignOffset, Low16, SSLBuffer.Behind;
    b := new SSLBuffer();
    var ok := b.EnsureCap(headerLen, newCap, address);
    b.FillRemaining(data);
    b.DidWrite(|data|);
    NoneAnd(data);
  }

  lemma WordIsZero()
    ensures Low16(U16) == 0
  {
  }

  lemma NoneAnd(data: Octets)
    ensures [] + data == data
  {
  }

  lemma AndNone(data: Octets)
    ensures data + [] == data
  {
  }

  lemma FrontPart(front: Octets, back: Octets, data: Octets)
    requires data == front + back
    ensures front == data[..|front|] && back == data[|front|..]
  {
  }

  /** A fresh allocation of that capacity reaches past 2^16. */
  predicate PastWord(headerLen: nat, newCap: nat, address: nat)
  {
    newCap < U16 <= AlignOffset(headerLen, address) + newCap
  }

  /** `EnsureCap` accepts such a capacity exactly where the allocation is not aligned by itself. */
  lemma WrapPossible(headerLen: nat, address: nat)
    ensures (exists newCap: nat :: PastWord(headerLen, newCap, address)) <==> (address + headerLen) % ALIGN_PAYLOAD != 0
  {
    AlignedAlready(headerLen, address);
    if (address + headerLen) % ALIGN_PAYLOAD != 0 {
      assert PastWord(headerLen, 0xffff, address);
    }
  }

  lemma AlignedAlready(headerLen: nat, address: nat)
    ensures AlignOffset(headerLen, address) == 0 <==> (address + headerLen) % ALIGN_PAYLOAD == 0
  {
  }
}
