/**
The DTLS replay window (`DTLS1_BITMAP`, section 4.1.2.6 of RFC 6347).

The 64-bit map and the maximum refine the full history of an epoch: a number is discarded exactly
when it has been recorded before or lies 64 or more below the highest number recorded.
*/
module DtlsReplay {
  import opened Bits
  import opened Bytes
  import PbWire

  const WINDOW: nat := 64

  /** The reference: what should be discarded, given everything recorded so far. */
  predicate Stale(seen: set<nat>, s: nat)
  {
    s in seen || exists m :: m in seen && s + WINDOW <= m
  }

  class Bitmap {
    // bit i stands for the sequence number maxSeqNum - i
    var window: nat
    var maxSeqNum: nat
    ghost var seen: set<nat>

    ghost predicate Valid()
      reads this
    {
      && window < U64
      && (forall s :: s in seen ==> s <= maxSeqNum)
      && (seen == {} ==> maxSeqNum == 0)
      && (seen != {} ==> maxSeqNum in seen)
      && forall i: nat :: i < WINDOW && i <= maxSeqNum ==> (Bit(window, i) <==> maxSeqNum - i in seen)
    }

    constructor ()
      ensures Valid() && seen == {}
    {
      window, maxSeqNum, seen := 0, 0, {};
      new;
      forall i: nat ensures !Bit(0, i) { ZeroBits(i); }
    }

    /** The reset of `dtls1_set_read_state`: a new epoch has no history. */
    method Reset()
      modifies this
      ensures Valid() && seen == {}
    {
      window, maxSeqNum, seen := 0, 0, {};
      forall i: nat ensures !Bit(0, i) { ZeroBits(i); }
    }

    /** `dtls1_bitmap_should_discard`. */
    method ShouldDiscard(s: nat) returns (discard: bool)
      requires Valid()
      ensures discard <==> Stale(seen, s)
    {
      if s > maxSeqNum {
        return false;
      }
      var idx := maxSeqNum - s;
      if idx >= WINDOW {
        assert maxSeqNum in seen by {
          if seen == {} { assert false; }
        }
        return true;
      }
      discard := And(window, Shl(1, idx, 64)) != 0;
      MaskTest(window, idx);
    }

    /** `dtls1_bitmap_record`, sliding the window forward if needed. */
    method Record(s: nat)
      requires Valid()
      modifies this
      ensures Valid() && seen == old(seen) + {s}
    {
      if s > maxSeqNum {
        var shift := s - maxSeqNum;
        ghost var was := window;
        if shift >= WINDOW {
          window := 0;
        } else {
          window := Shl(window, shift, 64);
        }
        Slide(was, shift);
        maxSeqNum := s;
      }
      var idx := maxSeqNum - s;
      if idx < WINDOW {
        ghost var was := window;
        window := Or(window, Shl(1, idx, 64));
        SetOneBit(was, idx);
      }
      seen := seen + {s};
    }
  }

  /** `map & (1 << idx)` tests bit `idx`. */
  lemma MaskTest(window: nat, idx: nat)
    requires idx < WINDOW
    ensures And(window, Shl(1, idx, 64)) != 0 <==> Bit(window, idx)
  {
    var masked := And(window, Shl(1, idx, 64));
    forall i: nat ensures Bit(masked, i) <==> i == idx && Bit(window, idx) {
      OneShifted(idx, i);
      AndBits(window, Shl(1, idx, 64), i);
    }
    if masked == 0 {
      ZeroBits(idx);
      assert !Bit(masked, idx);
    } else if !Bit(window, idx) {
      forall i: nat ensures Bit(masked, i) == Bit(0, i) { ZeroBits(i); }
      BitsDetermine(masked, 0);
      assert false;
    }
  }

  lemma OneShifted(idx: nat, i: nat)
    requires idx < WINDOW
    ensures Bit(Shl(1, idx, 64), i) <==> i == idx
  {
    ShlBits(1, idx, 64, i);
    if i > idx { ZeroBits(i - idx - 1); }
  }

  lemma SetOneBit(window: nat, idx: nat)
    requires window < U64 && idx < WINDOW
    ensures Or(window, Shl(1, idx, 64)) < U64
    ensures forall i: nat :: Bit(Or(window, Shl(1, idx, 64)), i) <==> Bit(window, i) || i == idx
  {
    PbWire.WordSizes();
    OrBound(window, Shl(1, idx, 64), 64);
    forall i: nat ensures Bit(Or(window, Shl(1, idx, 64)), i) <==> Bit(window, i) || i == idx {
      OneShifted(idx, i);
      OrBits(window, Shl(1, idx, 64), i);
    }
  }

  /** The window moved up to a new maximum. */
  function Slid(window: nat, shift: nat): nat { if shift >= WINDOW then 0 else Shl(window, shift, 64) }

  lemma Slide(window: nat, shift: nat)
    ensures Slid(window, shift) < U64
    ensures forall i: nat :: i < WINDOW ==> (Bit(Slid(window, shift), i) <==> i >= shift && Bit(window, i - shift))
  {
    PbWire.WordSizes();
    forall i: nat | i < WINDOW
      ensures Bit(Slid(window, shift), i) <==> i >= shift && Bit(window, i - shift)
    {
      ZeroBits(i);
      ShlBits(window, shift, 64, i);
    }
  }

  // ---- whole runs of the reference ----

  /** The numbers accepted out of `arrivals`, starting from history `seen`. */
  function Accepted(seen: set<nat>, arrivals: seq<nat>): (r: seq<nat>)
    decreases |arrivals|
  {
    if arrivals == [] then []
    else if Stale(seen, arrivals[0]) then Accepted(seen, arrivals[1..])
    else [arrivals[0]] + Accepted(seen + {arrivals[0]}, arrivals[1..])
  }

  predicate NoneIn(r: seq<nat>, seen: set<nat>) { forall i :: 0 <= i < |r| ==> r[i] !in seen }

  predicate Distinct(r: seq<nat>) { forall i, j :: 0 <= i < j < |r| ==> r[i] != r[j] }

  /** No number is accepted twice, whatever arrives in whatever order. */
  lemma {:induction false} AcceptedDistinct(seen: set<nat>, arrivals: seq<nat>)
    ensures NoneIn(Accepted(seen, arrivals), seen) && Distinct(Accepted(seen, arrivals))
    decreases |arrivals|
  {
    if arrivals != [] {
      var s := arrivals[0];
      if Stale(seen, s) {
        AcceptedDistinct(seen, arrivals[1..]);
      } else {
        var seen' := seen + {s};
        AcceptedDistinct(seen', arrivals[1..]);
        var tail := Accepted(seen', arrivals[1..]);
        assert NoneIn(tail, seen');
        forall i | 0 <= i < |tail| ensures tail[i] !in seen && tail[i] != s {
          assert tail[i] !in seen';
        }
        assert Accepted(seen, arrivals) == [s] + tail;
      }
    }
  }

  /** Every number that never falls 64 behind what came before it is accepted once. */
  lemma {:induction false} InWindowAccepted(seen: set<nat>, arrivals: seq<nat>, k: nat)
    requires k < |arrivals| && arrivals[k] !in seen
    requires forall m :: m in seen ==> m < arrivals[k] + WINDOW
    requires forall j :: 0 <= j < k ==> arrivals[j] < arrivals[k] + WINDOW
    ensures arrivals[k] in Accepted(seen, arrivals)
    decreases |arrivals|
  {
    var s, x := arrivals[0], arrivals[k];
    if s == x {
      assert !Stale(seen, x);
      assert Accepted(seen, arrivals)[0] == x;
    } else {
      var tail := arrivals[1..];
      assert tail[k - 1] == x;
      var seen' := if Stale(seen, s) then seen else seen + {s};
      InWindowAccepted(seen', tail, k - 1);
    }
  }
}
