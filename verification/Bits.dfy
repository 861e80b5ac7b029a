/** The bits of natural numbers, and the bitwise operations the formats use on them. */
module Bits {
  import opened Bytes

  /** Bit k of a number, the lowest first. */
  function Bit(n: nat, k: nat): (b: nat)
    ensures b <= 1
  {
    if k == 0 then n % 2 else Bit(n / 2, k - 1)
  }

  /** How many bits are one. */
  function BitCount(n: nat): nat {
    if n == 0 then 0 else n % 2 + BitCount(n / 2)
  }

  /** a ^ b */
  function Xor(a: nat, b: nat): nat
    decreases a + b
  {
    if a == 0 && b == 0 then 0 else (a + b) % 2 + 2 * Xor(a / 2, b / 2)
  }

  /** a & b == 0 */
  predicate Disjoint(a: nat, b: nat) {
    a == 0 || b == 0 || ((a % 2 == 0 || b % 2 == 0) && Disjoint(a / 2, b / 2))
  }

  lemma {:induction false} ZeroBits(k: nat)
    ensures Bit(0, k) == 0
  {
    if k > 0 { ZeroBits(k - 1); }
  }

  /** Exclusive or, bit by bit. */
  lemma {:induction false} XorBits(a: nat, b: nat, k: nat)
    ensures Bit(Xor(a, b), k) == (Bit(a, k) + Bit(b, k)) % 2
    decreases k
  {
    hide Xor;
    XorHalves(a, b);
    if k > 0 { XorBits(a / 2, b / 2, k - 1); }
  }

  lemma XorHalves(a: nat, b: nat)
    ensures Xor(a, b) % 2 == (a + b) % 2 && Xor(a, b) / 2 == Xor(a / 2, b / 2)
  {
    hide Xor;
    XorStep(a, b);
  }

  lemma XorStep(a: nat, b: nat)
    ensures Xor(a, b) == (a + b) % 2 + 2 * Xor(a / 2, b / 2)
  {
    if a == 0 && b == 0 { assert Xor(0, 0) == 0; }
  }

  lemma {:induction false} XorSelf(a: nat)
    ensures Xor(a, a) == 0
  {
    if a > 0 { XorSelf(a / 2); }
  }

  /** No bit is one in both numbers. */
  ghost predicate NoSharedBit(a: nat, b: nat) {
    forall k: nat :: Bit(a, k) == 0 || Bit(b, k) == 0
  }

  lemma {:induction false} DisjointBits(a: nat, b: nat)
    ensures Disjoint(a, b) <==> NoSharedBit(a, b)
  {
    if a == 0 || b == 0 {
      forall k: nat ensures Bit(a, k) == 0 || Bit(b, k) == 0 { ZeroBits(k); }
    } else {
      DisjointBits(a / 2, b / 2);
      if Disjoint(a, b) {
        forall k: nat ensures Bit(a, k) == 0 || Bit(b, k) == 0 {
          if k > 0 { assert Bit(a, k) == Bit(a / 2, k - 1) && Bit(b, k) == Bit(b / 2, k - 1); }
        }
      }
      if NoSharedBit(a, b) {
        forall k: nat ensures Bit(a / 2, k) == 0 || Bit(b / 2, k) == 0 {
          assert Bit(a, k + 1) == Bit(a / 2, k) && Bit(b, k + 1) == Bit(b / 2, k);
        }
        assert Bit(a, 0) == 0 || Bit(b, 0) == 0;
      }
    }
  }

  // ---------------------------------------------------------------- low bits

  lemma {:induction false} MultiplesApart(x: nat, y: nat, d: nat)
    ensures x < y ==> x * d + d <= y * d
    decreases y
  {
    if x < y {
      MultiplesApart(x, y - 1, d);
      OneMore(y - 1, d);
    }
  }

  lemma OneMore(n: nat, d: nat)
    ensures (n + 1) * d == n * d + d
  {}

  /** The low n bits of a number. */
  function Low(a: nat, n: nat): nat {
    if n == 0 then 0 else a % 2 + 2 * Low(a / 2, n - 1)
  }

  function High(a: nat, n: nat): nat {
    if n == 0 then a else High(a / 2, n - 1)
  }

  lemma {:induction false} LowAndHigh(a: nat, n: nat)
    ensures a == Low(a, n) + Pow2(n) * High(a, n) && Low(a, n) < Pow2(n)
    decreases n
  {
    if n > 0 {
      LowAndHigh(a / 2, n - 1);
      TwiceProduct(Pow2(n - 1), High(a, n));
    }
  }

  lemma TwiceProduct(p: nat, h: nat)
    ensures 2 * p * h == 2 * (p * h)
  {}

  lemma LowHalves(a: nat, n: nat)
    requires n > 0
    ensures Low(a, n) / 2 == Low(a / 2, n - 1) && Low(a, n) % 2 == a % 2
  {}

  lemma LowNone(a: nat)
    ensures Low(a, 0) == 0
  {}

  lemma Low63(a: nat)
    ensures Low(a, 63) == a % 0x8000_0000_0000_0000
  {
    hide Pow2, Low, High;
    LowAndHigh(a, 63);
    Pow63();
  }

  /** The low bits of an exclusive or are the exclusive or of the low bits. */
  lemma {:induction false} XorLow(a: nat, b: nat, n: nat)
    ensures Xor(Low(a, n), Low(b, n)) == Low(Xor(a, b), n)
    decreases n
  {
    hide Xor, Low;
    if n > 0 {
      XorLow(a / 2, b / 2, n - 1);
      LowHalves(a, n);
      LowHalves(b, n);
      LowHalves(Xor(a, b), n);
      XorHalves(a, b);
      XorHalves(Low(a, n), Low(b, n));
      FromHalves(Xor(Low(a, n), Low(b, n)), Low(Xor(a, b), n));
    } else {
      LowNone(a);
      LowNone(b);
      LowNone(Xor(a, b));
      XorSelf(0);
    }
  }

  lemma FromHalves(x: nat, y: nat)
    requires x % 2 == y % 2 && x / 2 == y / 2
    ensures x == y
  {}

  /** Only the low bits of a number matter against a mask that has no others. */
  lemma {:induction false} DisjointLow(a: nat, mask: nat, n: nat)
    requires mask < Pow2(n)
    ensures Disjoint(Low(a, n), mask) <==> Disjoint(a, mask)
    decreases n
  {
    hide Low;
    if n > 0 {
      LowHalves(a, n);
      DisjointLow(a / 2, mask / 2, n - 1);
    }
  }

  lemma Pow63()
    ensures Pow2(63) == 0x8000_0000_0000_0000
  {
    assert Pow2(8) == 0x100;
    assert Pow2(16) == 0x1_0000;
    assert Pow2(24) == 0x100_0000;
    assert Pow2(32) == 0x1_0000_0000;
    assert Pow2(40) == 0x100_0000_0000;
    assert Pow2(48) == 0x1_0000_0000_0000;
    assert Pow2(56) == 0x100_0000_0000_0000;
  }

  // ---------------------------------------------------------------- counting by hexadecimal digits

  const ONES: seq<nat> := [0, 1, 1, 2, 1, 2, 2, 3, 1, 2, 2, 3, 2, 3, 3, 4]

  /** How many bits of a hexadecimal digit are one. */
  function DigitOnes(d: nat): nat
    requires d < 16
  {
    ONES[d]
  }

  lemma CountStep(x: nat, half: nat)
    requires half == x / 2
    ensures BitCount(x) == x % 2 + BitCount(half)
  {}

  lemma CountBit(n: nat, b: nat)
    requires b < 2
    ensures BitCount(2 * n + b) == BitCount(n) + b
  {
    hide BitCount;
    CountStep(2 * n + b, n);
  }

  lemma DigitBits(d: nat)
    requires d < 16
    ensures d == 8 * (d / 8 % 2) + 4 * (d / 4 % 2) + 2 * (d / 2 % 2) + d % 2
    ensures DigitOnes(d) == d / 8 % 2 + d / 4 % 2 + d / 2 % 2 + d % 2
  {}

  lemma CountDigit(n: nat, d: nat)
    requires d < 16
    ensures BitCount(16 * n + d) == BitCount(n) + DigitOnes(d)
  {
    hide BitCount, DigitOnes;
    var a, b, c, e := d / 8 % 2, d / 4 % 2, d / 2 % 2, d % 2;
    DigitBits(d);
    CountBit(n, a);
    CountBit(2 * n + a, b);
    CountBit(4 * n + 2 * a + b, c);
    CountBit(8 * n + 4 * a + 2 * b + c, e);
  }

  /** Four hexadecimal digits behind a number. */
  function Hex4(n: nat, a: nat, b: nat, c: nat, d: nat): nat {
    16 * (16 * (16 * (16 * n + a) + b) + c) + d
  }

  lemma CountHex4(n: nat, a: nat, b: nat, c: nat, d: nat)
    requires a < 16 && b < 16 && c < 16 && d < 16
    ensures BitCount(Hex4(n, a, b, c, d)) == BitCount(n) + DigitOnes(a) + DigitOnes(b) + DigitOnes(c) + DigitOnes(d)
  {
    hide BitCount, DigitOnes;
    CountDigit(n, a);
    CountDigit(16 * n + a, b);
    CountDigit(16 * (16 * n + a) + b, c);
    CountDigit(16 * (16 * (16 * n + a) + b) + c, d);
  }

  /** A number of twelve hexadecimal digits and how many of its bits are one. */
  lemma CountHex12(a: nat, b: nat, c: nat, d: nat, e: nat, f: nat, g: nat, h: nat, i: nat, j: nat, k: nat, l: nat)
    requires a < 16 && b < 16 && c < 16 && d < 16 && e < 16 && f < 16
    requires g < 16 && h < 16 && i < 16 && j < 16 && k < 16 && l < 16
    ensures BitCount(Hex4(Hex4(Hex4(0, a, b, c, d), e, f, g, h), i, j, k, l)) ==
            DigitOnes(a) + DigitOnes(b) + DigitOnes(c) + DigitOnes(d) + DigitOnes(e) + DigitOnes(f)
            + DigitOnes(g) + DigitOnes(h) + DigitOnes(i) + DigitOnes(j) + DigitOnes(k) + DigitOnes(l)
  {
    hide DigitOnes, Hex4;
    CountHex4(0, a, b, c, d);
    CountHex4(Hex4(0, a, b, c, d), e, f, g, h);
    CountHex4(Hex4(Hex4(0, a, b, c, d), e, f, g, h), i, j, k, l);
  }
}
