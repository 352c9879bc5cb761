/**
Base 128 varints, zigzag and fixed-width integers of the Protocol Buffers encoding, as nanopb
writes and reads them.

A C expression over `uint32_t` or `uint64_t` is the same expression on naturals, truncated by
`%`. `pb_decode_varint32` keeps its bit position in an 8-bit `uint_fast8_t`, so over-long input
makes the position wrap; `Varint32Loop` keeps that wrap.
*/
module PbWire {
  import opened Bits
  import opened Bytes

  /** The canonical (shortest) varint of `v`. */
  function Varint(v: nat): (s: seq<Byte>)
    ensures |s| >= 1
  {
    if v < 128 then [v] else [v % 128 + 128] + Varint(v / 128)
  }

  /** The loop of `pb_decode_varint` from bit position `bitpos` with `result` read so far. */
  function Varint64Loop(s: seq<Byte>, bitpos: nat, result: nat): (r: Parse<nat>)
    ensures r.Ok? ==> |r.rest| < |s|
    decreases |s|
  {
    if bitpos >= 64 || s == [] then Err
    else
      var next := Or(result, Shl(s[0] % 128, bitpos, 64));
      if s[0] < 128 then Ok(next, s[1..]) else Varint64Loop(s[1..], bitpos + 7, next)
  }

  function DecodeVarint64(s: seq<Byte>): (r: Parse<nat>)
    ensures r.Ok? ==> |r.rest| < |s|
  {
    Varint64Loop(s, 0, 0)
  }

  /** Past bit 32 only zero groups and the sign extension of a negative number are let through. */
  predicate BadExtension(b: Byte, bitpos: nat, result: nat)
  {
    bitpos >= 32 && b % 128 != 0 &&
    (result / 0x8000_0000 == 0 || b != (if bitpos < 63 then 0xFF else 0x01))
  }

  function AddGroup32(b: Byte, bitpos: nat, result: nat): nat
  {
    if bitpos >= 32 then result else Or(result, Shl(b % 128, bitpos, 32))
  }

  /** The multi-byte loop of `pb_decode_varint32_eof`; `bitpos` lives in eight bits. */
  function Varint32Loop(s: seq<Byte>, bitpos: nat, result: nat): (r: Parse<nat>)
    ensures r.Ok? ==> |r.rest| < |s|
    decreases |s|
  {
    if s == [] || BadExtension(s[0], bitpos, result) then Err
    else
      var next, nextpos := AddGroup32(s[0], bitpos, result), (bitpos + 7) % 256;
      if s[0] >= 128 then Varint32Loop(s[1..], nextpos, next)
      else if nextpos == 35 && (s[0] / 16) % 8 != 0 then Err
      else Ok(next, s[1..])
  }

  function DecodeVarint32(s: seq<Byte>): (r: Parse<nat>)
    ensures r.Ok? ==> |r.rest| < |s|
  {
    if s == [] then Err
    else if s[0] < 128 then Ok(s[0], s[1..])
    else Varint32Loop(s[1..], 7, s[0] % 128)
  }

  function SkipVarint(s: seq<Byte>): (r: Parse<()>)
    ensures r.Ok? ==> |r.rest| < |s|
    decreases |s|
  {
    if s == [] then Err
    else if s[0] < 128 then Ok((), s[1..])
    else SkipVarint(s[1..])
  }

  /** `pb_encode_svarint`: `~((uint64_t)value << 1)` for negative values, `value << 1` otherwise. */
  function Zigzag(n: int): (z: int)
  {
    if n < 0 then U64 - 1 - (2 * (n + U64)) % U64 else 2 * n
  }

  /** `pb_decode_svarint`: `~(value >> 1)` read as signed when the low bit is set. */
  function Unzigzag(z: int): int
  {
    if z % 2 == 1 then ToSigned64(U64 - 1 - z / 2) else z / 2
  }

  /** `(uint64_t)n` for a signed 64-bit `n`. */
  function ToUnsigned64(n: int): int { if n < 0 then n + U64 else n }

  function ToSigned64(u: int): int { if u >= U64 / 2 then u - U64 else u }

  /** `(int32_t)u`, reading the low 32 bits as two's complement. */
  function ToSigned32(u: int): int { var low := u % U32; if low >= U32 / 2 then low - U32 else low }

  /** `count` bytes of `v`, least significant first. */
  function LittleEndian(v: nat, count: nat): (s: seq<Byte>)
    ensures |s| == count
  {
    if count == 0 then [] else [v % 256] + LittleEndian(v / 256, count - 1)
  }

  function FromLittleEndian(s: seq<Byte>): nat
  {
    if s == [] then 0 else s[0] + 256 * FromLittleEndian(s[1..])
  }

  function Take(s: seq<Byte>, count: nat): (r: Parse<seq<Byte>>)
    ensures r.Ok? <==> count <= |s|
    ensures r.Ok? ==> r.value + r.rest == s && |r.value| == count
  {
    if |s| < count then Err else Ok(s[..count], s[count..])
  }

  // ---- varints ----

  lemma WordSizes()
    ensures Pow2(7) == 128 && Pow2(32) == U32 && Pow2(64) == U64 && Pow2(31) == 0x8000_0000
    ensures Pow2(28) == 0x1000_0000 && Pow2(29) == 0x2000_0000 && Pow2(63) == U64 / 2 && Pow2(8) == 256
    ensures Pow2(35) == 128 * 0x1000_0000
  {
    PowerOf16();
    SmallPowers();
    assert Pow2(32) == 0x1_0000 * Pow2(16) by { TimesWord(16); }
    assert Pow2(48) == 0x1_0000 * Pow2(32) by { TimesWord(32); }
    assert Pow2(64) == 0x1_0000 * Pow2(48) by { TimesWord(48); }
    assert Pow2(32) == 2 * Pow2(31) && Pow2(64) == 2 * Pow2(63);
    assert Pow2(31) == 2 * Pow2(30) && Pow2(30) == 2 * Pow2(29) && Pow2(29) == 2 * Pow2(28);
    assert Pow2(35) == 2 * Pow2(34) && Pow2(34) == 2 * Pow2(33) && Pow2(33) == 2 * Pow2(32);
  }

  lemma SmallPowers()
    ensures Pow2(7) == 128 && Pow2(8) == 256
  {
    assert Pow2(4) == 16 && Pow2(6) == 4 * Pow2(4);
  }

  lemma PowerOf16()
    ensures Pow2(16) == 0x1_0000
  {
    assert Pow2(8) == 256 && Pow2(10) == 4 * Pow2(8);
    assert Pow2(12) == 4 * Pow2(10) && Pow2(14) == 4 * Pow2(12);
  }

  lemma {:induction false} TimesWord(n: nat)
    ensures Pow2(n + 16) == 0x1_0000 * Pow2(n)
    decreases n
  {
    if n == 0 {
      PowerOf16();
    } else {
      TimesWord(n - 1);
    }
  }

  lemma Scale7(x: nat)
    ensures Scale(x, 7) == 128 * x
  {
    assert Scale(x, 1) == 2 * x;
    assert Scale(x, 3) == 4 * Scale(x, 1) by { assert Scale(x, 2) == 2 * Scale(x, 1); }
    assert Scale(x, 5) == 4 * Scale(x, 3) by { assert Scale(x, 4) == 2 * Scale(x, 3); }
    assert Scale(x, 6) == 2 * Scale(x, 5);
  }

  /** Splitting off the low seven bits of `v` at bit position `bitpos`. */
  lemma SplitGroup(v: nat, bitpos: nat)
    ensures Scale(v, bitpos) == Scale(v % 128, bitpos) + Scale(v / 128, bitpos + 7)
    ensures Scale(v % 128, bitpos) < Pow2(bitpos + 7)
  {
    var low, high := v % 128, v / 128;
    assert v == low + 128 * high;
    Scale7(high);
    ScaleAdd(low, 128 * high, bitpos);
    ScaleTwice(high, 7, bitpos);
    ScaleStrict(low, 128, bitpos);
    assert Pow2(7) == 128;
    ScalePow2(7, bitpos);
  }

  /** What one more group contributes: the OR is a sum, and the rest of `v` moves up seven bits. */
  lemma GroupStep(v: nat, bitpos: nat, result: nat, width: nat)
    requires result < Pow2(bitpos) && result + Scale(v, bitpos) < Pow2(width)
    ensures Or(result, Shl(v % 128, bitpos, width)) == result + Scale(v % 128, bitpos)
    ensures result + Scale(v % 128, bitpos) < Pow2(bitpos + 7)
    ensures Scale(v, bitpos) == Scale(v % 128, bitpos) + Scale(v / 128, bitpos + 7)
    ensures v < 128 ==> Scale(v, bitpos) == Scale(v % 128, bitpos)
  {
    SplitGroup(v, bitpos);
    ModSmall(Scale(v % 128, bitpos), Pow2(width));
    OrDisjoint(result, v % 128, bitpos);
    ScaleMono(v % 128, 127, bitpos);
    ScaleAdd(127, 1, bitpos);
    ScaleOne(bitpos);
    assert Pow2(7) == 128;
    ScalePow2(7, bitpos);
  }

  lemma VarintHead(v: nat, t: seq<Byte>)
    ensures var s := Varint(v) + t;
            s[0] % 128 == v % 128 && (s[0] < 128 <==> v < 128) && (v < 128 ==> s[0] == v) &&
            s[1..] == if v < 128 then t else Varint(v / 128) + t
  {
    if v < 128 {
      Front(v, [], t);
    } else {
      Front(v % 128 + 128, Varint(v / 128), t);
    }
  }

  lemma Front(b: Byte, more: seq<Byte>, t: seq<Byte>)
    ensures ([b] + more + t)[0] == b && ([b] + more + t)[1..] == more + t
    ensures [b] + [] == [b] && [] + t == t
  {
  }

  lemma {:induction false} Varint64Read(v: nat, bitpos: nat, result: nat, t: seq<Byte>, total: nat)
    requires bitpos < 64 && result < Pow2(bitpos)
    requires total == result + Scale(v, bitpos) && total < Pow2(64)
    ensures Varint64Loop(Varint(v) + t, bitpos, result) == Ok(total, t)
    decreases v
  {
    hide Or, Shl, Varint;
    VarintHead(v, t);
    GroupStep(v, bitpos, result, 64);
    if v >= 128 {
      StillBelow(v / 128, bitpos + 7, 64);
      Varint64Read(v / 128, bitpos + 7, result + Scale(v % 128, bitpos), t, total);
    }
  }

  lemma {:induction false} ScaleZero(k: nat)
    ensures Scale(0, k) == 0
  {
    if k > 0 { ScaleZero(k - 1); }
  }

  lemma StillBelow(v: nat, bitpos: nat, width: nat)
    requires v > 0 && Scale(v, bitpos) < Pow2(width)
    ensures bitpos < width
  {
    ScaleMono(1, v, bitpos);
    ScaleOne(bitpos);
    if bitpos >= width { Pow2Mono(width, bitpos); }
  }

  /** Every 64-bit value is read back from its varint, and reading stops right after it. */
  lemma VarintRoundTrip(v: nat, t: seq<Byte>)
    requires v < U64
    ensures DecodeVarint64(Varint(v) + t) == Ok(v, t)
  {
    WordSizes();
    Varint64Read(v, 0, 0, t, v);
  }

  lemma {:induction false} VarintLength(v: nat, n: nat)
    requires n >= 1 && v < Pow2(7 * n)
    ensures |Varint(v)| <= n
    decreases n
  {
    if v >= 128 {
      SevenMore(7 * (n - 1));
      VarintLength(v / 128, n - 1);
    }
  }

  lemma SevenMore(n: nat)
    ensures Pow2(n + 7) == 128 * Pow2(n)
  {
    assert Pow2(n + 2) == 4 * Pow2(n) && Pow2(n + 4) == 4 * Pow2(n + 2);
    assert Pow2(n + 6) == 4 * Pow2(n + 4);
  }

  /** Ten bytes hold the varint of any 64-bit value: the encoder's buffer never overruns. */
  lemma VarintFits(v: nat)
    requires v < U64
    ensures |Varint(v)| <= 10
  {
    WordSizes();
    Pow2Mono(64, 70);
    VarintLength(v, 10);
  }

  /** The number a run of 7-bit groups stands for. */
  function GroupValue(s: seq<Byte>): nat
  {
    if s == [] then 0 else s[0] % 128 + 128 * GroupValue(s[1..])
  }

  lemma {:induction false} GroupBound(s: seq<Byte>)
    ensures GroupValue(s) < Pow2(7 * |s|)
  {
    if s != [] {
      GroupBound(s[1..]);
      SevenMore(7 * (|s| - 1));
    }
  }

  lemma ShlBelow(low: nat, bitpos: nat, width: nat)
    requires low < 128
    ensures Shl(low, bitpos, width) < Pow2(bitpos + 7)
  {
    ScaleStrict(low, 128, bitpos);
    assert Pow2(7) == 128;
    ScalePow2(7, bitpos);
    if Scale(low, bitpos) < Pow2(width) { ModSmall(Scale(low, bitpos), Pow2(width)); }
  }

  /** `pb_decode_varint` never returns more than the 7-bit groups it consumed can hold. */
  lemma {:induction false} LoopBound(s: seq<Byte>, bitpos: nat, result: nat)
    requires result < Pow2(bitpos)
    ensures var r := Varint64Loop(s, bitpos, result);
            r.Ok? ==> r.value < Pow2(bitpos + 7 * (|s| - |r.rest|))
    decreases |s|
  {
    if bitpos < 64 && s != [] {
      var low := s[0] % 128;
      var sh := Shl(low, bitpos, 64);
      ShlBelow(low, bitpos, 64);
      Pow2Mono(bitpos, bitpos + 7);
      OrBound(result, sh, bitpos + 7);
      if s[0] >= 128 {
        LoopBound(s[1..], bitpos + 7, Or(result, sh));
      }
    }
  }

  /** The encoder's form is minimal: no input that decodes to `v` is shorter than `Varint(v)`. */
  lemma VarintMinimal(s: seq<Byte>)
    ensures var r := DecodeVarint64(s); r.Ok? ==> |Varint(r.value)| <= |s| - |r.rest|
  {
    var r := DecodeVarint64(s);
    LoopBound(s, 0, 0);
    if r.Ok? {
      var used := |s| - |r.rest|;
      assert 0 + 7 * used == 7 * used;
      VarintLength(r.value, used);
    }
  }

  lemma Varint32Step(s: seq<Byte>, bitpos: nat, result: nat)
    requires bitpos <= 28 && s != []
    requires bitpos == 28 ==> s[0] < 16
    ensures Varint32Loop(s, bitpos, result) ==
            if s[0] < 128 then Ok(AddGroup32(s[0], bitpos, result), s[1..])
            else Varint32Loop(s[1..], bitpos + 7, AddGroup32(s[0], bitpos, result))
  {
    assert (bitpos + 7) % 256 == bitpos + 7;
  }

  lemma {:induction false} Varint32Read(s: seq<Byte>, v: nat, bitpos: nat, result: nat, t: seq<Byte>, total: nat)
    requires bitpos == 7 || bitpos == 14 || bitpos == 21 || bitpos == 28
    requires result < Pow2(bitpos) && total == result + Scale(v, bitpos) && total < Pow2(32)
    requires s == Varint(v) + t
    ensures Varint32Loop(s, bitpos, result) == Ok(total, t)
    decreases v
  {
    hide Or, Shl, Scale, Varint, Varint32Loop;
    VarintHead(v, t);
    GroupStep(v, bitpos, result, 32);
    if bitpos == 28 { BelowSixteen(v); }
    Varint32Step(s, bitpos, result);
    var next := AddGroup32(s[0], bitpos, result);
    assert next == result + Scale(v % 128, bitpos);
    if v >= 128 {
      Varint32Read(s[1..], v / 128, bitpos + 7, next, t, total);
    }
  }

  lemma BelowSixteen(v: nat)
    requires Scale(v, 28) < Pow2(32)
    ensures v < 16
  {
    if v >= 16 {
      ScaleMono(16, v, 28);
      assert Pow2(4) == 16;
      ScalePow2(4, 28);
    }
  }

  /** Every 32-bit value is read back by the 32-bit decoder. */
  lemma Varint32RoundTrip(v: nat, t: seq<Byte>)
    requires v < U32
    ensures DecodeVarint32(Varint(v) + t) == Ok(v, t)
  {
    VarintHead(v, t);
    if v >= 128 {
      FirstGroup(v);
      Varint32Read((Varint(v) + t)[1..], v / 128, 7, v % 128, t, v);
    }
  }

  lemma FirstGroup(v: nat)
    requires v < U32
    ensures v % 128 < Pow2(7) && v == v % 128 + Scale(v / 128, 7) && v < Pow2(32)
  {
    WordSizes();
    SplitGroup(v, 0);
  }

  /**
  From bit position 35 on, a canonical varint with anything left in it ends in a non-zero byte
  below 128, which is neither of the sign-extension bytes the decoder lets through.
  */
  lemma {:induction false} Varint32Rejects(v: nat, bitpos: nat, result: nat, t: seq<Byte>)
    requires bitpos in {35, 42, 49, 56} && 0 < v < Pow2(63 - bitpos)
    ensures Varint32Loop(Varint(v) + t, bitpos, result) == Err
    decreases v
  {
    hide Or, Shl, Scale, Varint;
    WordSizes();
    VarintHead(v, t);
    if v >= 128 {
      assert Pow2(63 - bitpos) == 128 * Pow2(63 - bitpos - 7) by { SevenMore(63 - bitpos - 7); }
      Varint32Rejects(v / 128, bitpos + 7, result, t);
    }
  }

  lemma {:induction false} Varint32TooLarge(v: nat, bitpos: nat, result: nat, t: seq<Byte>)
    requires bitpos in {7, 14, 21, 28} && Pow2(32 - bitpos) <= v < Pow2(63 - bitpos)
    ensures Varint32Loop(Varint(v) + t, bitpos, result) == Err
    decreases v
  {
    hide Or, Shl, Scale, Varint;
    var s := Varint(v) + t;
    WordSizes();
    VarintHead(v, t);
    if bitpos == 28 {
      assert Pow2(4) == 16;
      if v >= 128 {
        assert Pow2(35) == 128 * Pow2(28);
        var next := Or(result, Shl(s[0] % 128, 28, 32));
        Varint32Rejects(v / 128, 35, next, t);
      }
    } else {
      Pow2Mono(11, 32 - bitpos);
      assert Pow2(11) == 2048;
      SevenMore(32 - bitpos - 7);
      SevenMore(63 - bitpos - 7);
      Varint32TooLarge(v / 128, bitpos + 7, Or(result, Shl(s[0] % 128, bitpos, 32)), t);
    }
  }

  /** A length prefix of 2^32 or more (and below 2^63) is refused as "varint overflow". */
  lemma Varint32Overflow(v: nat, t: seq<Byte>)
    requires U32 <= v < U64 / 2
    ensures DecodeVarint32(Varint(v) + t) == Err
  {
    var s := Varint(v) + t;
    WordSizes();
    assert s[1..] == Varint(v / 128) + t;
    SevenMore(25);
    SevenMore(56);
    Varint32TooLarge(v / 128, 7, s[0] % 128, t);
  }

  // ---- negative int32 values, written as ten-byte sign-extended varints ----

  lemma Scale28(x: nat)
    ensures Scale(x, 28) == 0x1000_0000 * x
  {
    Scale7(x);
    ScaleTwice(x, 7, 7);
    Scale7(128 * x);
    ScaleTwice(x, 14, 7);
    Scale7(0x4000 * x);
    ScaleTwice(x, 21, 7);
    Scale7(0x20_0000 * x);
  }

  /** Past bit 32 the sign extension `v`, all ones, is swallowed and leaves the result alone. */
  lemma {:induction false} SignExtensionRead(v: nat, bitpos: nat, result: nat, t: seq<Byte>)
    requires bitpos in {35, 42, 49, 56, 63} && v == Pow2(64 - bitpos) - 1
    requires 0x8000_0000 <= result < U32
    ensures Varint32Loop(Varint(v) + t, bitpos, result) == Ok(result, t)
    decreases v
  {
    hide Or, Shl, Scale, Varint;
    VarintHead(v, t);
    if bitpos == 63 {
      assert v == 1;
    } else {
      SevenMore(64 - bitpos - 7);
      assert v == 127 + 128 * (Pow2(64 - bitpos - 7) - 1);
      assert v % 128 == 127 && v / 128 == Pow2(64 - bitpos - 7) - 1;
      Pow2Mono(1, 64 - bitpos - 7);
      SignExtensionRead(v / 128, bitpos + 7, result, t);
    }
  }

  /** The fifth group of a sign-extended number: four bits of the value, three of the extension. */
  lemma FifthGroup(k: nat)
    requires 1 <= k <= 8
    ensures Shl(128 - k, 28, 32) == 0x1000_0000 * (16 - k)
  {
    Scale28(128 - k);
    WordSizes();
    ModUnique(U32, 7, 0x1000_0000 * (16 - k));
  }

  lemma FifthGroupRead(v: nat, k: nat, bitpos: nat, result: nat, t: seq<Byte>)
    requires 1 <= k <= 8 && v == 0x10_0000_0000 - k && bitpos == 28 && result < 0x1000_0000
    ensures Varint32Loop(Varint(v) + t, bitpos, result) == Ok(result + 0x1000_0000 * (16 - k), t)
  {
    VarintHead(v, t);
    FifthGroup(k);
    FifthGroupSum(k, result);
    var next := result + 0x1000_0000 * (16 - k);
    var s := Varint(v) + t;
    assert AddGroup32(s[0], bitpos, result) == next;
    WordSizes();
    SignExtensionRead(v / 128, bitpos + 7, next, t);
  }

  lemma FifthGroupSum(k: nat, result: nat)
    requires 1 <= k <= 8 && result < 0x1000_0000
    ensures Or(result, 0x1000_0000 * (16 - k)) == result + 0x1000_0000 * (16 - k)
  {
    Scale28(16 - k);
    WordSizes();
    OrDisjoint(result, 16 - k, 28);
  }

  /** Below bit 28 a group goes in whole, whatever stands above it. */
  lemma LowGroup(v: nat, bitpos: nat, result: nat)
    requires bitpos <= 21 && result < Pow2(bitpos)
    ensures Or(result, Shl(v % 128, bitpos, 32)) == result + Scale(v % 128, bitpos) < Pow2(bitpos + 7)
    ensures Scale(v, bitpos) == Scale(v % 128, bitpos) + Scale(v / 128, bitpos + 7)
  {
    SplitGroup(v, bitpos);
    Pow2Mono(bitpos + 7, 32);
    ScaleMono(v % 128, 127, bitpos);
    ScaleAdd(127, 1, bitpos);
    ScaleOne(bitpos);
    assert Pow2(7) == 128;
    ScalePow2(7, bitpos);
    GroupStep(v % 128, bitpos, result, 32);
  }

  lemma NegativeBounds(v: nat, bitpos: nat)
    requires bitpos <= 21
    requires Pow2(64 - bitpos) - Pow2(31 - bitpos) <= v < Pow2(64 - bitpos)
    ensures v >= 128 && Pow2(57 - bitpos) - Pow2(24 - bitpos) <= v / 128 < Pow2(57 - bitpos)
  {
    SevenMore(57 - bitpos);
    SevenMore(24 - bitpos);
    Pow2Mono(24 - bitpos, 56 - bitpos);
    Pow2Mono(1, 56 - bitpos);
    assert Pow2(57 - bitpos) == 2 * Pow2(56 - bitpos);
    DivideBy128(v, Pow2(57 - bitpos) - Pow2(24 - bitpos), Pow2(57 - bitpos));
  }

  lemma DivideBy128(v: nat, low: nat, high: nat)
    requires 128 * low <= v < 128 * high
    ensures low <= v / 128 < high
  {
  }

  lemma {:induction false} NegativeRead(s: seq<Byte>, v: nat, bitpos: nat, result: nat, t: seq<Byte>, total: nat)
    requires s == Varint(v) + t
    requires bitpos in {7, 14, 21, 28} && result < Pow2(bitpos)
    requires Pow2(64 - bitpos) - Pow2(31 - bitpos) <= v < Pow2(64 - bitpos)
    requires total == result + Scale(v, bitpos) - U64 + U32
    ensures Varint32Loop(s, bitpos, result) == Ok(total, t)
    decreases v
  {
    if bitpos == 28 {
      NegativeEnd(s, v, bitpos, result, t, total);
    } else {
      var next := result + Scale(v % 128, bitpos);
      NegativeBounds(v, bitpos);
      NegativeStep(s, v, bitpos, result, t, next);
      NegativeRead(s[1..], v / 128, bitpos + 7, next, t, total);
    }
  }

  lemma NegativeEnd(s: seq<Byte>, v: nat, bitpos: nat, result: nat, t: seq<Byte>, total: nat)
    requires s == Varint(v) + t && bitpos == 28 && result < Pow2(bitpos)
    requires Pow2(36) - Pow2(3) <= v < Pow2(36)
    requires total == result + Scale(v, 28) - U64 + U32
    ensures Varint32Loop(s, bitpos, result) == Ok(total, t)
  {
    LastFourBits(v);
    FifthGroupRead(v, 0x10_0000_0000 - v, bitpos, result, t);
  }

  lemma LastFourBits(v: nat)
    requires Pow2(36) - Pow2(3) <= v < Pow2(36)
    ensures 0x10_0000_0000 - 8 <= v < 0x10_0000_0000 && Pow2(28) == 0x1000_0000
    ensures Scale(v, 28) - U64 + U32 == 0x1000_0000 * (16 - (0x10_0000_0000 - v))
  {
    WordSizes();
    SevenMore(29);
    assert Pow2(3) == 8;
    Scale28(v);
  }

  lemma NegativeStep(s: seq<Byte>, v: nat, bitpos: nat, result: nat, t: seq<Byte>, next: nat)
    requires s == Varint(v) + t && bitpos <= 21 && v >= 128
    requires result < Pow2(bitpos) && next == result + Scale(v % 128, bitpos)
    ensures s[1..] == Varint(v / 128) + t && next < Pow2(bitpos + 7)
    ensures next + Scale(v / 128, bitpos + 7) == result + Scale(v, bitpos)
    ensures Varint32Loop(s, bitpos, result) == Varint32Loop(s[1..], bitpos + 7, next)
  {
    VarintHead(v, t);
    LowGroup(v, bitpos, result);
    Varint32Step(s, bitpos, result);
  }

  /** A negative int32, which the encoder sign-extends to ten bytes, reads as its low 32 bits. */
  lemma Varint32SignExtended(n: int, t: seq<Byte>)
    requires -(U32 / 2) <= n < 0
    ensures DecodeVarint32(Varint(ToUnsigned64(n)) + t) == Ok(n + U32, t)
  {
    hide Or, Shl, Varint, Varint32Loop;
    var v := ToUnsigned64(n);
    var s := Varint(v) + t;
    WordSizes();
    VarintHead(v, t);
    SevenMore(57);
    SevenMore(24);
    assert Pow2(57) - Pow2(24) <= v / 128 < Pow2(57);
    Scale7(v / 128);
    NegativeRead(s[1..], v / 128, 7, v % 128, t, n + U32);
  }

  // ---- zigzag and fixed-width integers ----

  /** Zigzag maps the signed 64-bit range onto the unsigned one and back. */
  lemma ZigzagRoundTrip(n: int)
    requires -(U64 / 2) <= n < U64 / 2
    ensures 0 <= Zigzag(n) < U64 && Unzigzag(Zigzag(n)) == n
  {
    if n < 0 {
      assert 2 * (n + U64) == U64 + (2 * n + U64);
      assert (2 * (n + U64)) % U64 == 2 * n + U64;
    }
  }

  lemma UnzigzagRoundTrip(z: int)
    requires 0 <= z < U64
    ensures -(U64 / 2) <= Unzigzag(z) < U64 / 2 && Zigzag(Unzigzag(z)) == z
  {
    if z % 2 == 1 {
      var n := Unzigzag(z);
      assert n == -1 - z / 2;
      assert (2 * (n + U64)) % U64 == 2 * n + U64;
    }
  }

  lemma {:induction false} FixedRoundTrip(v: nat, count: nat)
    requires v < Pow2(8 * count)
    ensures FromLittleEndian(LittleEndian(v, count)) == v
    decreases count
  {
    if count > 0 {
      SevenMore(8 * (count - 1));
      FixedRoundTrip(v / 256, count - 1);
      assert LittleEndian(v, count)[1..] == LittleEndian(v / 256, count - 1);
    }
  }
}
