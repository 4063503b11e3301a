/** Machine-word types and the powers and bit lengths the 128-bit arc value
    is specified with. */
module Arith {

  /** 2^64: one more than the largest Go uint64. */
  const TWO64: nat := 0x1_0000_0000_0000_0000

  /** 2^128: one more than the largest value a NumberForm holds. */
  const TWO128: nat := 0x1_0000_0000_0000_0000_0000_0000_0000_0000

  /** 10^19: the largest power of ten that fits in a uint64. */
  const TEN19: nat := 10_000_000_000_000_000_000

  /** 10^39: the first power of ten above 2^128. */
  const TEN39: nat := 1_000_000_000_000_000_000_000_000_000_000_000_000_000

  /** Go's uint64. */
  type u64 = x: int | 0 <= x < 0x1_0000_0000_0000_0000

  /** Go's int on a 64-bit platform. */
  type i64 = x: int | -0x8000_0000_0000_0000 <= x < 0x8000_0000_0000_0000

  function Pow2(k: nat): nat
  {
    if k == 0 then 1 else 2 * Pow2(k - 1)
  }

  function Pow10(k: nat): nat
  {
    if k == 0 then 1 else 10 * Pow10(k - 1)
  }

  lemma {:induction false} Pow2Positive(k: nat)
    ensures Pow2(k) >= 1
  {
    if k > 0 {
      Pow2Positive(k - 1);
    }
  }

  lemma {:induction false} Pow10Positive(k: nat)
    ensures Pow10(k) >= 1
  {
    if k > 0 {
      Pow10Positive(k - 1);
    }
  }

  lemma {:induction false} Pow2Add(a: nat, b: nat)
    ensures Pow2(a + b) == Pow2(a) * Pow2(b)
  {
    if a > 0 {
      Pow2Add(a - 1, b);
      assert Pow2(a + b) == 2 * Pow2(a - 1 + b);
    }
  }

  lemma {:induction false} Pow10Add(a: nat, b: nat)
    ensures Pow10(a + b) == Pow10(a) * Pow10(b)
  {
    if a > 0 {
      Pow10Add(a - 1, b);
      assert Pow10(a + b) == 10 * Pow10(a - 1 + b);
    }
  }

  /** The named binary word-size constants are the powers they stand for. */
  lemma Pow2Constants()
    ensures Pow2(64) == TWO64 && Pow2(128) == TWO128
  {
    Pow2Add(1, 1);
    Pow2Add(2, 2);
    assert Pow2(4) == 16;
    Pow2Add(4, 4);
    assert Pow2(8) == 256;
    Pow2Add(8, 8);
    assert Pow2(16) == 0x1_0000;
    Pow2Add(16, 16);
    assert Pow2(32) == 0x1_0000_0000;
    Pow2Add(32, 32);
    assert Pow2(64) == TWO64;
    Pow2Add(64, 64);
  }

  lemma Pow10Ten19()
    ensures Pow10(19) == TEN19
  {
    Pow10Add(1, 1);
    Pow10Add(2, 2);
    assert Pow10(4) == 10_000;
    Pow10Add(4, 4);
    assert Pow10(8) == 100_000_000;
    Pow10Add(8, 8);
    assert Pow10(16) == 10_000_000_000_000_000;
    Pow10Add(16, 3);
    assert Pow10(3) == 1000;
  }

  /** 10^39 is the first power of ten above 2^128. */
  lemma Pow10Ten39()
    ensures Pow10(39) == TEN39 && TWO128 < TEN39
  {
    Pow10Ten19();
    Pow10Add(19, 19);
    Pow10Add(38, 1);
  }

  /** Multiplying by a constant factor commutes with a product. */
  lemma MulFactor(c: int, a: int, p: int)
    ensures c * (a * p) == a * (c * p)
  {
  }

  lemma Pow10Monotone(a: nat, b: nat)
    ensures a <= b ==> Pow10(a) <= Pow10(b)
  {
    if a <= b {
      Pow10Add(a, b - a);
      Pow10Positive(a);
      Pow10Positive(b - a);
      MulMonotone(Pow10(a), 1, Pow10(b - a));
    }
  }

  /** If a positive multiple of 10^k stays below 10^j, then k < j. */
  lemma Pow10Below(x: nat, k: nat, j: nat)
    requires x >= 1 && x * Pow10(k) < Pow10(j)
    ensures k < j
  {
    Pow10Monotone(j, k);
    MulMonotone(Pow10(k), 1, x);
  }

  /** Number of bits needed to write n in binary: Go's big.Int.BitLen and
      bits.Len64 for a non-negative value. */
  function BitLen(n: nat): nat
  {
    if n == 0 then 0 else 1 + BitLen(n / 2)
  }

  /** A value fits in k bits exactly when it is below 2^k. */
  lemma {:induction false} BitLenBelow(n: nat, k: nat)
    ensures BitLen(n) <= k <==> n < Pow2(k)
  {
    Pow2Positive(k);
    if k > 0 && n > 0 {
      BitLenBelow(n / 2, k - 1);
    }
  }

  lemma HalfOf(x: nat, l: nat)
    ensures (2 * x + l) / 2 == x + l / 2
  {
  }

  /** Putting k low bits under a positive number adds k to its bit length. */
  lemma {:induction false} BitLenShift(h: nat, l: nat, k: nat)
    requires h > 0 && l < Pow2(k)
    ensures BitLen(h * Pow2(k) + l) == k + BitLen(h)
  {
    if k > 0 {
      var p := Pow2(k - 1);
      var x := h * p;
      assert Pow2(k) == 2 * p;
      MulFactor(2, h, p);
      assert h * Pow2(k) + l == 2 * x + l;
      Pow2Positive(k - 1);
      HalfOf(x, l);
      BitLenShift(h, l / 2, k - 1);
      assert BitLen(2 * x + l) == 1 + BitLen(x + l / 2);
    }
  }

  /** The two bounds that pin down the bit length of a number. */
  lemma BitLenBounds(n: nat)
    ensures n < Pow2(BitLen(n))
    ensures n > 0 ==> BitLen(n) >= 1 && Pow2(BitLen(n) - 1) <= n
  {
    var b := BitLen(n);
    BitLenBelow(n, b);
    if n > 0 {
      assert b == 1 + BitLen(n / 2);
      BitLenBelow(n, b - 1);
    }
  }

  /** Multiplication is monotone in its second factor. */
  lemma MulMonotone(y: nat, a: nat, b: nat)
    ensures a <= b ==> y * a <= y * b
  {
  }

  /** The arithmetic of appending one decimal digit. */
  lemma AppendDigitArith(a: int, p: int, b: int, d: int)
    ensures 10 * (a * p + b) + d == a * (10 * p) + (10 * b + d)
  {
  }

  lemma MulAddDistrib(x: int, y: int, r: int, p: int)
    ensures (x * y + r) * p == x * (y * p) + r * p
  {
  }

  /** A quotient is below b when the dividend is below b times the divisor. */
  lemma DivBelow(n: nat, y: nat, b: nat)
    requires y > 0 && n < y * b
    ensures n / y < b
  {
    var q := n / y;
    assert y * q <= n;
    MulMonotone(y, b, q);
  }

  /** The bit length of the 128-bit number hi:lo in terms of its halves. */
  lemma BitLenOfHalves(hi: nat, lo: nat)
    requires hi < TWO64 && lo < TWO64
    ensures BitLen(hi) <= 64 && BitLen(lo) <= 64
    ensures hi > 0 ==> BitLen(hi * TWO64 + lo) == 64 + BitLen(hi)
    ensures hi == 0 ==> BitLen(hi * TWO64 + lo) == BitLen(lo)
  {
    Pow2Constants();
    BitLenBelow(hi, 64);
    BitLenBelow(lo, 64);
    if hi > 0 {
      BitLenShift(hi, lo, 64);
    }
  }

  /** Cancelling a common factor from a strict bound. */
  lemma FactorBelow(x: nat, c: nat, r: nat, p: nat)
    requires x * c + r < p * c
    ensures x < p
  {
    MulMonotone(c, p, x);
  }

  /** Splitting off the low chunk r of vc = vq*c + r moves it from the
      weight of vc to the digits below. */
  lemma RegroupChunk(vq: int, vc: int, r: int, c: int, p: int, d: int, total: int)
    requires vc == vq * c + r && total == vc * p + d
    ensures total == vq * (c * p) + (r * p + d)
  {
    MulAddDistrib(vq, c, r, p);
  }

  /** One digit step: the last digit d of rest, put in front of a tail
      worth low at weight p, leaves rest / 10 at weight 10p. */
  lemma DigitStep(r: int, rest: nat, p: int, low: int, p10: int, w: int)
    requires r == rest * p + low && p10 == 10 * p && w == (rest % 10) * p + low
    ensures r == (rest / 10) * p10 + w
  {
    var q, d := rest / 10, rest % 10;
    assert rest == 10 * q + d;
    assert rest * p == q * (10 * p) + d * p;
  }
}
