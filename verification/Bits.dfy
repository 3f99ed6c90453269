/** Exclusive or of bytes, bit by bit from the low end. */
module Bits {
  import opened Bytes
  import opened Modulo

  function Pow2(n: nat): nat { if n == 0 then 1 else 2 * Pow2(n - 1) }

  function XorBits(a: nat, b: nat, n: nat): (r: nat)
    ensures r < Pow2(n)
  {
    if n == 0 then 0
    else 2 * XorBits(a / 2, b / 2, n - 1) + if a % 2 == b % 2 then 0 else 1
  }

  lemma {:induction false} XorBitsTwice(a: nat, b: nat, n: nat)
    requires a < Pow2(n)
    ensures XorBits(XorBits(a, b, n), b, n) == a
  {
    if n > 0 {
      XorBitsTwice(a / 2, b / 2, n - 1);
      var r := XorBits(a, b, n);
      assert r / 2 == XorBits(a / 2, b / 2, n - 1);
    }
  }

  lemma EightBits()
    ensures Pow2(8) == 0x100
  {
    assert Pow2(4) == 16;
    assert Pow2(6) == 4 * Pow2(4);
  }

  function Xor(a: Byte, b: Byte): Byte {
    EightBits();
    XorBits(a, b, 8)
  }

  lemma XorTwice(a: Byte, b: Byte)
    ensures Xor(Xor(a, b), b) == a
  {
    EightBits();
    XorBitsTwice(a, b, 8);
  }

  // ----- bits by position -----

  /** Bit `i`, counted from the low end. */
  function Bit(a: nat, i: nat): nat {
    PowerIsPositive(i);
    a / Pow2(i) % 2
  }

  lemma {:induction false} PowerIsPositive(n: nat)
    ensures Pow2(n) > 0
  {
    if n > 0 { PowerIsPositive(n - 1); }
  }

  /** Bit `i + 1` of a number is bit `i` of its half. */
  lemma BitOfHalf(a: nat, i: nat)
    ensures Bit(a, i + 1) == Bit(a / 2, i)
  {
    PowerIsPositive(i);
    var p := Pow2(i);
    var k, m := a / 2 / p, a / 2 % p;
    assert a / 2 == p * k + m;
    assert 2 * (p * k) == 2 * p * k;
    ModUnique(a, 2 * p, k, 2 * m + a % 2);
    QuotientUnique(a, 2 * p, k, 2 * m + a % 2);
  }

  lemma LowestBit(a: nat)
    ensures Bit(a, 0) == a % 2
  {
    assert a / 1 == a;
  }

  lemma XorBitsSplit(a: nat, b: nat, n: nat)
    requires n > 0
    ensures XorBits(a, b, n) / 2 == XorBits(a / 2, b / 2, n - 1)
    ensures XorBits(a, b, n) % 2 == (a % 2 + b % 2) % 2
  {
    hide Pow2;
  }

  lemma {:induction false} XorBitsBit(a: nat, b: nat, n: nat, i: nat)
    requires i < n
    ensures Bit(XorBits(a, b, n), i) == (Bit(a, i) + Bit(b, i)) % 2
  {
    hide Bit, XorBits;
    var r := XorBits(a, b, n);
    XorBitsSplit(a, b, n);
    if i == 0 {
      LowestBit(r);
      LowestBit(a);
      LowestBit(b);
    } else {
      BitOfHalf(r, i - 1);
      BitOfHalf(a, i - 1);
      BitOfHalf(b, i - 1);
      XorBitsBit(a / 2, b / 2, n - 1, i - 1);
    }
  }

  /** Exclusive or is addition of bits modulo 2, in each of the eight positions. */
  lemma XorIsBitwise(a: Byte, b: Byte, i: nat)
    requires i < 8
    ensures Bit(Xor(a, b), i) == (Bit(a, i) + Bit(b, i)) % 2
  {
    XorBitsBit(a, b, 8, i);
  }

  lemma {:induction false} XorBitsZero(a: nat, n: nat)
    requires a < Pow2(n)
    ensures XorBits(a, 0, n) == a
  {
    if n > 0 { XorBitsZero(a / 2, n - 1); }
  }

  lemma XorZero(a: Byte)
    ensures Xor(a, 0) == a
  {
    EightBits();
    XorBitsZero(a, 8);
  }

  lemma {:induction false} XorBitsAssoc(a: nat, b: nat, c: nat, n: nat)
    ensures XorBits(XorBits(a, b, n), c, n) == XorBits(a, XorBits(b, c, n), n)
  {
    if n > 0 {
      var ab, bc := XorBits(a, b, n), XorBits(b, c, n);
      assert ab / 2 == XorBits(a / 2, b / 2, n - 1) && bc / 2 == XorBits(b / 2, c / 2, n - 1);
      XorBitsAssoc(a / 2, b / 2, c / 2, n - 1);
    }
  }

  lemma XorAssoc(a: Byte, b: Byte, c: Byte)
    ensures Xor(Xor(a, b), c) == Xor(a, Xor(b, c))
  {
    XorBitsAssoc(a, b, c, 8);
  }

  // ----- or -----

  function OrBits(a: nat, b: nat, n: nat): (r: nat)
    ensures r < Pow2(n)
  {
    if n == 0 then 0
    else 2 * OrBits(a / 2, b / 2, n - 1) + if a % 2 == 0 && b % 2 == 0 then 0 else 1
  }

  lemma {:induction false} OrZero(a: nat, n: nat)
    requires a < Pow2(n)
    ensures OrBits(a, 0, n) == a
  {
    if n > 0 { OrZero(a / 2, n - 1); }
  }

  /** Or with a value below the lowest set bits is addition. */
  lemma {:induction false} OrIsSum(v: nat, d: nat, k: nat, n: nat)
    requires d < Pow2(k) && k <= n && v * Pow2(k) + d < Pow2(n)
    ensures OrBits(v * Pow2(k), d, n) == v * Pow2(k) + d
  {
    if k == 0 {
      OrZero(v, n);
    } else {
      var a := v * Pow2(k);
      assert a == 2 * (v * Pow2(k - 1)) by {
        assert Pow2(k) == 2 * Pow2(k - 1);
        assert v * (2 * Pow2(k - 1)) == 2 * (v * Pow2(k - 1));
      }
      assert a / 2 == v * Pow2(k - 1) && a % 2 == 0;
      OrIsSum(v, d / 2, k - 1, n - 1);
    }
  }
}
