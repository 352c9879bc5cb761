/** Big-endian integers, as `CBS_get_*`, `CBB_add_*` and hand-written shifts read and write them. */
module BigEndian {
  import opened Bits
  import opened Bytes

  /** The number the bytes stand for, most significant first. */
  function Value(s: seq<Byte>): nat
  {
    if s == [] then 0 else 256 * Value(s[..|s| - 1]) + s[|s| - 1]
  }

  /** `v` in `count` bytes; higher bytes are dropped. */
  function Encode(v: nat, count: nat): (s: seq<Byte>)
    ensures |s| == count
  {
    if count == 0 then [] else Encode(v / 256, count - 1) + [v % 256]
  }

  lemma {:induction false} EncodeValue(s: seq<Byte>)
    ensures Encode(Value(s), |s|) == s
  {
    if s != [] {
      var init := s[..|s| - 1];
      EncodeValue(init);
      assert s == init + [s[|s| - 1]];
    }
  }

  lemma {:induction false} ValueEncode(v: nat, count: nat)
    requires v < Pow2(8 * count)
    ensures Value(Encode(v, count)) == v
  {
    if count > 0 {
      var s := Encode(v, count);
      Times256(count - 1);
      ValueEncode(v / 256, count - 1);
      assert s[..|s| - 1] == Encode(v / 256, count - 1);
    }
  }

  lemma Times256(n: nat)
    ensures Pow2(8 * n + 8) == 256 * Pow2(8 * n)
  {
    var k := 8 * n;
    assert Pow2(k + 4) == 16 * Pow2(k) by { assert Pow2(k + 2) == 4 * Pow2(k); }
    assert Pow2(k + 8) == 16 * Pow2(k + 4) by { assert Pow2(k + 6) == 4 * Pow2(k + 4); }
  }

  lemma {:induction false} ValueBound(s: seq<Byte>)
    ensures Value(s) < Pow2(8 * |s|)
  {
    if s != [] {
      ValueBound(s[..|s| - 1]);
      Times256(|s| - 1);
    }
  }

  /** The low bytes change the number by less than the place of the high ones. */
  lemma {:induction false} ValueConcat(a: seq<Byte>, b: seq<Byte>)
    ensures Value(a + b) == Scale(Value(a), 8 * |b|) + Value(b)
    decreases |b|
  {
    if b == [] {
      assert a + b == a;
    } else {
      var init := b[..|b| - 1];
      assert (a + b)[..|a + b| - 1] == a + init;
      ValueConcat(a, init);
      Scale8(Value(a), 8 * |init|);
    }
  }

  lemma Scale8(x: nat, k: nat)
    ensures Scale(x, k + 8) == 256 * Scale(x, k)
  {
    assert Scale(x, k + 4) == 16 * Scale(x, k) by { assert Scale(x, k + 2) == 4 * Scale(x, k); }
    assert Scale(x, k + 8) == 16 * Scale(x, k + 4) by { assert Scale(x, k + 6) == 4 * Scale(x, k + 4); }
  }

  /** `to_u64_be`: the loop over eight bytes with shifts and ORs in 64 bits. */
  method ToU64(s: seq<Byte>) returns (ret: nat)
    requires |s| == 8
    ensures ret == Value(s)
  {
    ret := 0;
    assert s[..0] == [];
    for i := 0 to 8
      invariant ret == Value(s[..i])
    {
      ShiftInByte(s, i);
      ret := Or(Shl(ret, 8, 64), s[i]);
    }
    assert s[..8] == s;
  }

  /** One turn of that loop: `ret <<= 8; ret |= in[i]` appends a byte. */
  lemma ShiftInByte(s: seq<Byte>, i: nat)
    requires i < 8 && i < |s|
    ensures Or(Shl(Value(s[..i]), 8, 64), s[i]) == Value(s[..i + 1])
  {
    var v := Value(s[..i]);
    assert s[..i + 1][..i] == s[..i];
    ValueBound(s[..i + 1]);
    Pow2Mono(8 * (i + 1), 64);
    Scale8(v, 0);
    assert Value(s[..i + 1]) == 256 * v + s[i];
    ModSmall(Scale(v, 8), Pow2(64));
    assert Pow2(8) == 256;
    OrDisjoint(s[i], v, 8);
    OrCommutes(Scale(v, 8), s[i]);
  }

  lemma {:induction false} OrCommutes(a: nat, b: nat)
    ensures Or(a, b) == Or(b, a)
    decreases a + b
  {
    if a != 0 && b != 0 { OrCommutes(a / 2, b / 2); }
  }
}
