/** The 64-bit arithmetic of FNV-1a. */
module Fnv {
  import opened Bytes

  type Word = x: int | 0 <= x < TWO64

  /** A uint64_t. */
  datatype Hash64 = Hash64(bits: Word)

  const OFFSET := Hash64(0xcbf2_9ce4_8422_2325)

  function Pow2(n: nat): (r: nat)
    ensures r > 0
  {
    if n == 0 then 1 else 2 * Pow2(n - 1)
  }

  lemma Pow64()
    ensures Pow2(64) == TWO64
  {
    assert Pow2(8) == 0x100;
    assert Pow2(16) == 0x1_0000;
    assert Pow2(24) == 0x100_0000;
    assert Pow2(32) == 0x1_0000_0000;
    assert Pow2(40) == 0x100_0000_0000;
    assert Pow2(48) == 0x1_0000_0000_0000;
    assert Pow2(56) == 0x100_0000_0000_0000;
  }

  /** The exclusive or, lowest bit first. */
  function XorBits(a: nat, b: nat): nat
    decreases a + b
  {
    if a == 0 && b == 0 then 0 else (if a % 2 == b % 2 then 0 else 1) + 2 * XorBits(a / 2, b / 2)
  }

  lemma {:induction false} XorBitsFits(a: nat, b: nat, n: nat)
    requires a < Pow2(n) && b < Pow2(n)
    ensures XorBits(a, b) < Pow2(n)
    decreases n
  {
    if n > 0 {
      XorBitsFits(a / 2, b / 2, n - 1);
    }
  }

  lemma XorBitsIsWord(a: Word, b: Word)
    ensures XorBits(a, b) < TWO64
  {
    hide XorBits, Pow2;
    Pow64();
    XorBitsFits(a, b, 64);
  }

  function XorWords(a: Word, b: Word): Word {
    XorBitsIsWord(a, b);
    XorBits(a, b)
  }

  function Xor(a: Hash64, b: Hash64): Hash64 {
    Hash64(XorWords(a.bits, b.bits))
  }

  function TimesPrime(x: Word): Word {
    x * 0x100_0000_01b3 % TWO64
  }

  /** `Hash`: one step of FNV-1a. */
  function Mix(h: Hash64, d: Hash64): Hash64 {
    Hash64(TimesPrime(XorWords(h.bits, d.bits)))
  }

  /** An unsigned char as a uint64_t. */
  function OfByte(b: Byte): Hash64 {
    Hash64(b)
  }

  // ---- Exclusive or ----

  lemma XorHalves(a: nat, b: nat)
    ensures XorBits(a, b) / 2 == XorBits(a / 2, b / 2) && (XorBits(a, b) % 2 == 0 <==> a % 2 == b % 2)
  {
  }

  lemma {:induction false} XorBitsSwap(a: nat, b: nat, c: nat)
    ensures XorBits(XorBits(a, b), c) == XorBits(XorBits(a, c), b)
    decreases a + b + c
  {
    if a + b + c > 0 {
      XorBitsSwap(a / 2, b / 2, c / 2);
      XorHalves(a, b);
      XorHalves(a, c);
      XorHalves(XorBits(a, b), c);
      XorHalves(XorBits(a, c), b);
    }
  }

  /** The operands of an exclusive or can change places. */
  lemma XorSwap(a: Hash64, b: Hash64, c: Hash64)
    ensures Xor(Xor(a, b), c) == Xor(Xor(a, c), b)
  {
    hide XorBits;
    XorBitsSwap(a.bits, b.bits, c.bits);
  }

  lemma {:induction false} XorBitsSymmetric(a: nat, b: nat)
    ensures XorBits(a, b) == XorBits(b, a)
    decreases a + b
  {
    if a + b > 0 {
      XorBitsSymmetric(a / 2, b / 2);
    }
  }

  lemma {:induction false} XorBitsInjective(h: nat, x: nat, y: nat)
    requires XorBits(h, x) == XorBits(h, y)
    ensures x == y
    decreases h + x + y
  {
    if h + x + y > 0 {
      XorHalves(h, x);
      XorHalves(h, y);
      XorBitsInjective(h / 2, x / 2, y / 2);
    }
  }

  lemma XorWordsInjective(h: Word, x: Word, y: Word)
    ensures XorWords(h, x) == XorWords(h, y) <==> x == y
    ensures XorWords(x, h) == XorWords(y, h) <==> x == y
  {
    hide XorBits;
    XorBitsSymmetric(h, x);
    XorBitsSymmetric(h, y);
    if XorWords(h, x) == XorWords(h, y) {
      XorBitsInjective(h, x, y);
    }
  }

  lemma XorInjective(h: Hash64, x: Hash64, y: Hash64)
    ensures Xor(h, x) == Xor(h, y) <==> x == y
    ensures Xor(x, h) == Xor(y, h) <==> x == y
  {
    hide XorWords;
    XorWordsInjective(h.bits, x.bits, y.bits);
  }

  // ---- Mixing ----

  const INVERSE := 0xce96_5057_aff6_957b

  lemma Wraps(x: Word, k: int)
    ensures (x + k * TWO64) % TWO64 == x
  {
  }

  /** The prime has an inverse modulo 2^64. */
  lemma PrimeInverts(x: Word)
    ensures TimesPrime(x) * INVERSE % TWO64 == x
  {
    var k := x * 0x100_0000_01b3 / TWO64;
    assert TimesPrime(x) == x * 0x100_0000_01b3 - k * TWO64;
    Wraps(x, x * 0xce9650590f - k * INVERSE);
  }

  /** No two data give one hash, and no two hashes before give one hash after. */
  lemma MixInjective(h: Hash64, x: Hash64, y: Hash64)
    ensures Mix(h, x) == Mix(h, y) <==> x == y
    ensures Mix(x, h) == Mix(y, h) <==> x == y
  {
    hide XorWords, TimesPrime;
    PrimeInverts(XorWords(h.bits, x.bits));
    PrimeInverts(XorWords(h.bits, y.bits));
    PrimeInverts(XorWords(x.bits, h.bits));
    PrimeInverts(XorWords(y.bits, h.bits));
    XorWordsInjective(h.bits, x.bits, y.bits);
  }

  // ---- A published hash ----

  lemma {:induction false} XorNothing(a: nat)
    ensures XorBits(a, 0) == a
  {
    if a > 0 {
      XorNothing(a / 2);
    }
  }

  lemma XorStep(a: nat, b: nat, r: nat)
    requires XorBits(a / 2, b / 2) == r
    ensures XorBits(a, b) == (if a % 2 == b % 2 then 0 else 1) + 2 * r
  {
  }

  /** The FNV-1a hash of the one byte "a". */
  lemma HashOfA()
    ensures Mix(OFFSET, OfByte(0x61)) == Hash64(0xaf63_dc4c_8601_ec8c)
  {
    hide XorBits;
    XorNothing(0x197e539c9084446);
    XorStep(0x32fca739210888c, 0x1, 0x197e539c9084446);
    XorStep(0x65f94e724211119, 0x3, 0x32fca739210888d);
    XorStep(0xcbf29ce48422232, 0x6, 0x65f94e72421111a);
    XorStep(0x197e539c90844464, 0xc, 0xcbf29ce48422234);
    XorStep(0x32fca739210888c9, 0x18, 0x197e539c90844468);
    XorStep(0x65f94e7242111192, 0x30, 0x32fca739210888d1);
    XorStep(0xcbf29ce484222325, 0x61, 0x65f94e72421111a2);
  }
}
