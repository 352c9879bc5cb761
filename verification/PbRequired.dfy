/**
`fields_seen`: the two 32-bit words in which `pb_decode_noinit` remembers the required fields it
has met, as the set they stand for.
*/
module PbRequired {
  import opened Bits
  import opened PbDescriptor
  import opened PbDecodeSpec
  import PbWire

  type Word = x: nat | x < 0x1_0000_0000

  predicate HasBit(words: seq<Word>, k: nat)
    requires |words| == 2 && k < MAX_REQUIRED_FIELDS
  {
    Bit(words[k / 32], k % 32)
  }

  /** The required-field indices whose bit is set. */
  function SeenSet(words: seq<Word>): (s: set<nat>)
    requires |words| == 2
  {
    set k: nat | k < MAX_REQUIRED_FIELDS && HasBit(words, k)
  }

  lemma NothingSeen(words: seq<Word>)
    requires words == [0, 0]
    ensures SeenSet(words) == {}
  {
    forall k: nat | k < MAX_REQUIRED_FIELDS ensures !HasBit(words, k) { ZeroBits(k % 32); }
  }

  /** `fields_seen[index >> 5] |= (uint32_t)1 << (index & 31)`. */
  method Mark(words: array<Word>, index: nat)
    requires words.Length == 2 && index < MAX_REQUIRED_FIELDS
    modifies words
    ensures SeenSet(words[..]) == old(SeenSet(words[..])) + {index}
  {
    var tmp := Shl(1, index % 32, 32);
    PbWire.WordSizes();
    OrBound(words[index / 32], tmp, 32);
    ghost var before := words[..];
    words[index / 32] := Or(words[index / 32], tmp);
    forall k: nat | k < MAX_REQUIRED_FIELDS
      ensures HasBit(words[..], k) <==> HasBit(before, k) || k == index
    {
      OrBits(before[index / 32], tmp, k % 32);
      ShlBits(1, index % 32, 32, k % 32);
      OnlyLowBit(k % 32 - index % 32);
    }
  }

  lemma OnlyLowBit(i: int)
    ensures i >= 0 ==> (Bit(1, i) <==> i == 0)
  {
    if i > 0 { ZeroBits(i - 1); }
  }

  /** Whether every index from `lo` up to `hi`, capped at 64, has its bit set. */
  predicate AllSet(words: seq<Word>, lo: nat, hi: nat)
    requires |words| == 2
  {
    forall k: nat :: lo <= k < hi && k < MAX_REQUIRED_FIELDS ==> HasBit(words, k)
  }

  lemma WordOfBits(words: seq<Word>, i: nat, m: nat)
    requires |words| == 2 && i < 2 && m <= 32
    requires forall k: nat :: 32 * i + m <= k < 32 * i + 32 ==> !HasBit(words, k)
    ensures LowOnes(words[i], 32, m) <==> AllSet(words, 32 * i, 32 * i + m)
  {
    forall j: nat | j < 32 ensures HasBit(words, 32 * i + j) <==> Bit(words[i], j) {
      assert (32 * i + j) / 32 == i && (32 * i + j) % 32 == j;
    }
    if LowOnes(words[i], 32, m) {
      forall k: nat | 32 * i <= k < 32 * i + m ensures HasBit(words, k) {
        assert k == 32 * i + (k - 32 * i) && Bit(words[i], k - 32 * i);
      }
    } else {
      var j: nat :| j < 32 && !(Bit(words[i], j) <==> j < m);
      assert HasBit(words, 32 * i + j) <==> Bit(words[i], j);
    }
  }

  lemma WholeWord(words: seq<Word>, i: nat)
    requires |words| == 2 && i < 2
    ensures words[i] == Pow2(32) - 1 <==> AllSet(words, 32 * i, 32 * i + 32)
  {
    PbWire.WordSizes();
    EqualsMask(words[i], 32, 32);
    WordOfBits(words, i, 32);
  }

  lemma PartWord(words: seq<Word>, i: nat, m: nat)
    requires |words| == 2 && i < 2 && 0 < m < 32
    requires forall k: nat :: 32 * i + m <= k < 32 * i + 32 ==> !HasBit(words, k)
    ensures words[i] == Shr(Pow2(32) - 1, 32 - m) <==> AllSet(words, 32 * i, 32 * i + m)
  {
    PbWire.WordSizes();
    ShrMask(32, 32 - m);
    EqualsMask(words[i], 32, m);
    WordOfBits(words, i, m);
  }

  /**
  The check after the loop: whole words against all ones, then the rest of the last word against
  as many ones as there are fields left. No bit beyond `count` may be set, as no field has it.
  */
  method AllPresent(words: array<Word>, count: nat) returns (ok: bool)
    requires words.Length == 2
    requires forall k :: k in SeenSet(words[..]) ==> k < count
    ensures ok <==> AllSet(words[..], 0, count)
  {
    var n := if count > MAX_REQUIRED_FIELDS then MAX_REQUIRED_FIELDS else count;
    var whole, part := n / 32, n % 32;
    if n > 0 {
      var i := 0;
      while i < whole
        invariant 0 <= i <= whole
        invariant AllSet(words[..], 0, 32 * i)
      {
        WholeWord(words[..], i);
        if words[i] != Pow2(32) - 1 {
          return false;
        }
        i := i + 1;
      }
      if part != 0 {
        forall k: nat | n <= k < MAX_REQUIRED_FIELDS ensures !HasBit(words[..], k) {
          assert k !in SeenSet(words[..]);
        }
        PartWord(words[..], whole, part);
        if words[whole] != Shr(Pow2(32) - 1, 32 - part) {
          return false;
        }
      }
    }
    return true;
  }

  /** What the two words say is what the set of the decoder's specification says. */
  lemma MaskMeansAllRequired(fields: seq<Field>, words: seq<Word>)
    requires |words| == 2
    ensures AllSet(words, 0, RequiredBefore(fields, |fields|)) <==> AllRequiredSeen(fields, SeenSet(words))
  {
    var count := RequiredBefore(fields, |fields|);
    forall k: nat | k < MAX_REQUIRED_FIELDS ensures HasBit(words, k) <==> k in SeenSet(words) {}
    if AllSet(words, 0, count) {
      assert AllRequiredSeen(fields, SeenSet(words));
    }
  }
}
