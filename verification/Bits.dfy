/**
Machine-word operations on natural numbers.

C's `|`, `&`, `^` and `<<` are written out bit by bit on unbounded naturals, so that a
`uint8_t`, `uint32_t` or `uint64_t` expression becomes the same expression followed by
`% 2^width` where the C type truncates. `Bit` reads one bit; every law below is about bits,
and `BitsDetermine` turns equal bits back into equal numbers.
*/
module Bits {

  function Pow2(n: nat): (p: nat)
    ensures p > 0
  {
    if n == 0 then 1 else 2 * Pow2(n - 1)
  }

  /** Bit `i` of `x`: the C expression `(x >> i) & 1`. */
  predicate Bit(x: nat, i: nat)
    decreases i
  {
    if i == 0 then x % 2 == 1 else Bit(x / 2, i - 1)
  }

  function Or(a: nat, b: nat): nat
    decreases a + b
  {
    if a == 0 then b
    else if b == 0 then a
    else (if a % 2 == 1 || b % 2 == 1 then 1 else 0) + 2 * Or(a / 2, b / 2)
  }

  function And(a: nat, b: nat): nat
    decreases a + b
  {
    if a == 0 || b == 0 then 0
    else (if a % 2 == 1 && b % 2 == 1 then 1 else 0) + 2 * And(a / 2, b / 2)
  }

  function Xor(a: nat, b: nat): nat
    decreases a + b
  {
    if a == 0 then b
    else if b == 0 then a
    else (if a % 2 != b % 2 then 1 else 0) + 2 * Xor(a / 2, b / 2)
  }

  /** `~x` on an unsigned word of `width` bits. */
  function Not(x: nat, width: nat): nat
    requires x < Pow2(width)
  {
    Pow2(width) - 1 - x
  }

  /** `x` moved up by `k` bits, untruncated. */
  function Scale(x: nat, k: nat): nat
  {
    if k == 0 then x else 2 * Scale(x, k - 1)
  }

  /** `x << k` truncated to `width` bits. */
  function Shl(x: nat, k: nat, width: nat): nat
  {
    Scale(x, k) % Pow2(width)
  }

  /** `x >> k`. */
  function Shr(x: nat, k: nat): nat
  {
    if k == 0 then x else Shr(x / 2, k - 1)
  }

  lemma {:induction false} ZeroBits(i: nat)
    ensures !Bit(0, i)
    decreases i
  {
    if i > 0 { ZeroBits(i - 1); }
  }

  lemma {:induction false} OrBits(a: nat, b: nat, i: nat)
    ensures Bit(Or(a, b), i) <==> Bit(a, i) || Bit(b, i)
    decreases i
  {
    ZeroBits(i);
    if a != 0 && b != 0 && i > 0 {
      OrBits(a / 2, b / 2, i - 1);
      assert Or(a, b) / 2 == Or(a / 2, b / 2);
    }
  }

  lemma {:induction false} AndBits(a: nat, b: nat, i: nat)
    ensures Bit(And(a, b), i) <==> Bit(a, i) && Bit(b, i)
    decreases i
  {
    ZeroBits(i);
    if a != 0 && b != 0 && i > 0 {
      AndBits(a / 2, b / 2, i - 1);
      assert And(a, b) / 2 == And(a / 2, b / 2);
    }
  }

  lemma {:induction false} XorBits(a: nat, b: nat, i: nat)
    ensures Bit(Xor(a, b), i) <==> Bit(a, i) != Bit(b, i)
    decreases i
  {
    if a == 0 || b == 0 {
      ZeroBits(i);
    } else if i > 0 {
      XorBits(a / 2, b / 2, i - 1);
    }
  }

  /** XOR with the same key twice gives the number back, so XOR with a key is injective. */
  lemma {:induction false} XorTwice(a: nat, k: nat)
    ensures Xor(Xor(a, k), k) == a
    decreases a + k
  {
    if a == 0 {
      XorSelf(k);
    } else if k != 0 {
      XorTwice(a / 2, k / 2);
      var x := Xor(a, k);
      assert x / 2 == Xor(a / 2, k / 2) && (x % 2 == 1 <==> a % 2 != k % 2);
      if x == 0 {
        XorZeroImpliesEqual(a, k);
      }
    }
  }

  lemma {:induction false} XorSelf(k: nat)
    ensures Xor(k, k) == 0
  {
    if k != 0 { XorSelf(k / 2); }
  }

  lemma {:induction false} XorZeroImpliesEqual(a: nat, k: nat)
    requires Xor(a, k) == 0
    ensures a == k
    decreases a + k
  {
    if a != 0 && k != 0 {
      XorZeroImpliesEqual(a / 2, k / 2);
    }
  }

  lemma {:induction false} XorBound(a: nat, b: nat, n: nat)
    requires a < Pow2(n) && b < Pow2(n)
    ensures Xor(a, b) < Pow2(n)
    decreases n
  {
    if a != 0 && b != 0 { XorBound(a / 2, b / 2, n - 1); }
  }

  lemma {:induction false} BitsDetermine(a: nat, b: nat)
    requires forall i: nat :: Bit(a, i) == Bit(b, i)
    ensures a == b
    decreases a + b
  {
    if a != b {
      assert Bit(a, 0) == Bit(b, 0);
      forall i: nat ensures Bit(a / 2, i) == Bit(b / 2, i) {
        assert Bit(a, i + 1) == Bit(b, i + 1);
      }
      BitsDetermine(a / 2, b / 2);
    }
  }

  lemma {:induction false} ScaledBits(x: nat, k: nat, i: nat)
    ensures Bit(Scale(x, k), i) <==> i >= k && Bit(x, i - k)
    decreases k
  {
    if k > 0 && i > 0 {
      assert Scale(x, k) / 2 == Scale(x, k - 1);
      ScaledBits(x, k - 1, i - 1);
    }
  }

  lemma {:induction false} ModBits(x: nat, n: nat, i: nat)
    ensures Bit(x % Pow2(n), i) <==> i < n && Bit(x, i)
    decreases n
  {
    if n == 0 {
      ZeroBits(i);
    } else {
      HalfMod(x, Pow2(n - 1));
      if i > 0 { ModBits(x / 2, n - 1, i - 1); }
    }
  }

  lemma HalfMod(x: nat, m: nat)
    requires m > 0
    ensures (x % (2 * m)) / 2 == (x / 2) % m
    ensures (x % (2 * m)) % 2 == x % 2
  {
    HalfModAt(x, m, x / (2 * m), x % (2 * m));
  }

  lemma HalfModAt(x: nat, m: nat, q: nat, r: nat)
    requires m > 0 && r < 2 * m && x == (2 * m) * q + r
    ensures (x / 2) % m == r / 2 && x % 2 == r % 2
  {
    var k := m * q;
    TwiceTimes(m, q);
    assert x == 2 * k + r;
    HalfSum(k, r);
    ModUnique(m, q, r / 2);
  }

  lemma TwiceTimes(m: nat, q: nat)
    ensures (2 * m) * q == 2 * (m * q)
  {
  }

  lemma HalfSum(k: nat, r: nat)
    ensures (2 * k + r) / 2 == k + r / 2 && (2 * k + r) % 2 == r % 2
  {
  }

  lemma ModUnique(m: nat, q: nat, r: nat)
    requires r < m
    ensures (m * q + r) % m == r && (m * q + r) / m == q
  {
    var x := m * q + r;
    var q', r' := x / m, x % m;
    assert x == m * q' + r';
    MulMono(m, q' + 1, q);
    MulMono(m, q + 1, q');
  }

  lemma MulMono(m: nat, a: nat, b: nat)
    ensures a <= b ==> m * a <= m * b
  {
  }

  lemma {:induction false} ShlBits(x: nat, k: nat, width: nat, i: nat)
    ensures Bit(Shl(x, k, width), i) <==> k <= i < width && Bit(x, i - k)
  {
    ModBits(Scale(x, k), width, i);
    ScaledBits(x, k, i);
  }

  lemma {:induction false} OneBit(k: nat, i: nat)
    ensures Bit(Pow2(k), i) <==> i == k
    decreases k
  {
    if k == 0 {
      if i > 0 { ZeroBits(i - 1); }
    } else if i > 0 {
      OneBit(k - 1, i - 1);
    }
  }

  lemma {:induction false} MaskBits(n: nat, i: nat)
    ensures Bit(Pow2(n) - 1, i) <==> i < n
    decreases n
  {
    if n == 0 {
      ZeroBits(i);
    } else if i > 0 {
      assert (Pow2(n) - 1) / 2 == Pow2(n - 1) - 1;
      MaskBits(n - 1, i - 1);
    }
  }

  /** All ones shifted right are fewer ones. */
  lemma {:induction false} ShrMask(n: nat, k: nat)
    requires k <= n
    ensures Shr(Pow2(n) - 1, k) == Pow2(n - k) - 1
    decreases k
  {
    if k > 0 {
      assert (Pow2(n) - 1) / 2 == Pow2(n - 1) - 1;
      ShrMask(n - 1, k - 1);
    }
  }

  /** Of the first `n` bits, exactly the first `m` are set. */
  predicate LowOnes(x: nat, n: nat, m: nat)
  {
    forall i: nat :: i < n ==> (Bit(x, i) <==> i < m)
  }

  /** A word of `n` bits equals the mask of its low `m` bits exactly when those are the bits set. */
  lemma EqualsMask(x: nat, n: nat, m: nat)
    requires m <= n && x < Pow2(n)
    ensures x == Pow2(m) - 1 <==> LowOnes(x, n, m)
  {
    if x == Pow2(m) - 1 {
      forall i: nat | i < n ensures Bit(x, i) <==> i < m { MaskBits(m, i); }
    } else if LowOnes(x, n, m) {
      forall i: nat ensures Bit(x, i) == Bit(Pow2(m) - 1, i) {
        MaskBits(m, i);
        if i >= n { HighBitsClear(x, n, i); }
      }
      BitsDetermine(x, Pow2(m) - 1);
      assert false;
    }
  }

  lemma {:induction false} NotBits(x: nat, width: nat, i: nat)
    requires x < Pow2(width)
    ensures Bit(Not(x, width), i) <==> i < width && !Bit(x, i)
    decreases width
  {
    if width == 0 {
      ZeroBits(i);
    } else {
      NotHalf(x, Pow2(width - 1));
      if i > 0 { NotBits(x / 2, width - 1, i - 1); }
    }
  }

  lemma NotHalf(x: nat, p: nat)
    requires x < 2 * p
    ensures (2 * p - 1 - x) / 2 == p - 1 - x / 2 && (2 * p - 1 - x) % 2 == 1 - x % 2
  {
  }

  lemma {:induction false} HighBitsClear(x: nat, n: nat, i: nat)
    requires x < Pow2(n) && n <= i
    ensures !Bit(x, i)
    decreases n
  {
    if n == 0 {
      ZeroBits(i);
    } else {
      HighBitsClear(x / 2, n - 1, i - 1);
    }
  }

  /** A number whose bits at or above `n` are all clear is below 2^n. */
  lemma {:induction false} BoundFromBits(x: nat, n: nat)
    requires forall i: nat :: i >= n ==> !Bit(x, i)
    ensures x < Pow2(n)
    decreases n
  {
    if n == 0 {
      forall i: nat ensures Bit(x, i) == Bit(0, i) { ZeroBits(i); }
      BitsDetermine(x, 0);
    } else {
      forall i: nat | i >= n - 1 ensures !Bit(x / 2, i) { assert !Bit(x, i + 1); }
      BoundFromBits(x / 2, n - 1);
    }
  }

  lemma {:induction false} OrBound(a: nat, b: nat, n: nat)
    requires a < Pow2(n) && b < Pow2(n)
    ensures Or(a, b) < Pow2(n)
    decreases n
  {
    if a != 0 && b != 0 { OrBound(a / 2, b / 2, n - 1); }
  }

  /** `|` of a low part and a part shifted above it is a sum. */
  lemma {:induction false} OrDisjoint(low: nat, high: nat, k: nat)
    requires low < Pow2(k)
    ensures Or(low, Scale(high, k)) == low + Scale(high, k)
    decreases k
  {
    if k > 0 {
      assert Scale(high, k) / 2 == Scale(high, k - 1);
      OrDisjoint(low / 2, high, k - 1);
    }
  }

  lemma {:induction false} ScaleAdd(a: nat, b: nat, k: nat)
    ensures Scale(a + b, k) == Scale(a, k) + Scale(b, k)
    decreases k
  {
    if k > 0 { ScaleAdd(a, b, k - 1); }
  }

  lemma {:induction false} ScaleMono(a: nat, b: nat, k: nat)
    requires a <= b
    ensures Scale(a, k) <= Scale(b, k)
    decreases k
  {
    if k > 0 { ScaleMono(a, b, k - 1); }
  }

  lemma {:induction false} ScaleTwice(a: nat, j: nat, k: nat)
    ensures Scale(Scale(a, j), k) == Scale(a, j + k)
    decreases k
  {
    if k > 0 { ScaleTwice(a, j, k - 1); }
  }

  lemma {:induction false} ScaleOne(k: nat)
    ensures Scale(1, k) == Pow2(k)
    decreases k
  {
    if k > 0 { ScaleOne(k - 1); }
  }

  lemma {:induction false} ScalePow2(n: nat, k: nat)
    ensures Scale(Pow2(n), k) == Pow2(n + k)
    decreases k
  {
    if k > 0 { ScalePow2(n, k - 1); }
  }

  lemma {:induction false} ScaleStrict(a: nat, b: nat, k: nat)
    requires a < b
    ensures Scale(a, k) < Scale(b, k)
    decreases k
  {
    if k > 0 { ScaleStrict(a, b, k - 1); }
  }

  lemma {:induction false} Pow2Mono(a: nat, b: nat)
    requires a <= b
    ensures Pow2(a) <= Pow2(b)
    decreases b
  {
    if a < b { Pow2Mono(a, b - 1); }
  }

  lemma ModSmall(x: nat, m: nat)
    requires x < m
    ensures x % m == x
  {
  }
}
