/**
 * Go's unsigned machine integers written out on mathematical integers:
 * a `uint32` is an integer in [0, 2^32), addition and subtraction wrap
 * modulo 2^32, and the bitwise operators are defined digit by digit in
 * base 2.
 */
module Bits {

  const Modulus32: nat := 0x1_0000_0000

  /** A Go `uint32`. */
  type Word = x: int | 0 <= x < 0x1_0000_0000

  /** 2 to the power `n`; its constants are pinned by `Pow2Values`. */
  function Pow2(n: nat): nat {
    if n == 0 then 1 else 2 * Pow2(n - 1)
  }

  lemma Pow2Values()
    ensures Pow2(4) == 16 && Pow2(8) == 256 && Pow2(32) == Modulus32
  {
    assert Pow2(4) == 16;
    assert Pow2(8) == 256;
    assert Pow2(16) == 0x1_0000;
    assert Pow2(24) == 0x100_0000;
  }

  /** Bitwise exclusive or of the low `bits` binary digits of `a` and `b`. */
  function Xor(a: nat, b: nat, bits: nat): nat {
    if bits == 0 then 0
    else (if a % 2 == b % 2 then 0 else 1) + 2 * Xor(a / 2, b / 2, bits - 1)
  }

  /** The exclusive or of the low `bits` digits has `bits` digits. */
  lemma {:induction false} XorBound(a: nat, b: nat, bits: nat)
    ensures Xor(a, b, bits) < Pow2(bits)
    decreases bits
  {
    if bits > 0 {
      XorBound(a / 2, b / 2, bits - 1);
    }
  }

  /** Exclusive or with the same value twice is the identity on `bits`-bit values. */
  lemma {:induction false} XorXor(a: nat, b: nat, bits: nat)
    requires a < Pow2(bits)
    ensures Xor(Xor(a, b, bits), b, bits) == a
  {
    if bits > 0 {
      var x := Xor(a, b, bits);
      XorXor(a / 2, b / 2, bits - 1);
      assert x / 2 == Xor(a / 2, b / 2, bits - 1);
      assert x % 2 == (if a % 2 == b % 2 then 0 else 1);
    }
  }

  /** `a + b` on `uint32`. */
  function Add32(a: Word, b: Word): Word {
    (a + b) % Modulus32
  }

  /** `a - b` on `uint32`. */
  function Sub32(a: Word, b: Word): Word {
    (a - b) % Modulus32
  }

  lemma Sub32Add32(a: Word, b: Word)
    ensures Sub32(Add32(a, b), b) == a
  {
  }

  lemma Add32Sub32(a: Word, b: Word)
    ensures Add32(Sub32(a, b), b) == a
  {
  }

  /** `a ^ b` on `uint32`. */
  function Xor32(a: Word, b: Word): Word {
    Xor(a, b, 32) % Modulus32
  }

  /** The reduction in Xor32 changes nothing: the exclusive or of two words is a word. */
  lemma Xor32Exact(a: Word, b: Word)
    ensures Xor32(a, b) == Xor(a, b, 32)
  {
    Pow2Values();
    XorBound(a, b, 32);
  }

  lemma Xor32Xor32(a: Word, b: Word)
    ensures Xor32(Xor32(a, b), b) == a
  {
    Xor32Exact(a, b);
    Xor32Exact(Xor32(a, b), b);
    Pow2Values();
    XorXor(a, b, 32);
  }

  /** `v << n` on `uint32`: one doubling per position, the bit pushed past bit 31 is lost. */
  function Shl32(v: Word, n: nat): Word
    decreases n
  {
    if n == 0 then v else Shl32((v * 2) % Modulus32, n - 1)
  }

  /** `v >> n` on `uint32`: one halving per position. */
  function Shr32(v: Word, n: nat): Word
    decreases n
  {
    if n == 0 then v else Shr32(v / 2, n - 1)
  }

  /**
   * Exclusive or works digit by digit: on numbers split into high parts and
   * `m`-bit low parts, it is the exclusive or of the high parts above the
   * exclusive or of the low parts.
   */
  lemma {:induction false} XorSplit(x: nat, x': nat, hi: nat, hi': nat, lo: nat, lo': nat, m: nat, k: nat)
    requires lo < Pow2(m) && lo' < Pow2(m)
    requires x == hi * Pow2(m) + lo && x' == hi' * Pow2(m) + lo'
    ensures Xor(x, x', m + k) == Xor(hi, hi', k) * Pow2(m) + Xor(lo, lo', m)
    decreases m
  {
    if m > 0 {
      var p := Pow2(m - 1);
      assert Pow2(m) == 2 * p;
      HalveSplit(x, hi, lo, p);
      HalveSplit(x', hi', lo', p);
      XorSplit(x / 2, x' / 2, hi, hi', lo / 2, lo' / 2, m - 1, k);
      XorSplitStep(x, x', hi, hi', lo, lo', m, k);
    }
  }

  /** The inductive step of XorSplit: one binary digit moves from the low part out. */
  lemma XorSplitStep(x: nat, x': nat, hi: nat, hi': nat, lo: nat, lo': nat, m: nat, k: nat)
    requires m > 0 && lo < Pow2(m) && lo' < Pow2(m)
    requires x == hi * Pow2(m) + lo && x' == hi' * Pow2(m) + lo'
    requires Xor(x / 2, x' / 2, m - 1 + k) == Xor(hi, hi', k) * Pow2(m - 1) + Xor(lo / 2, lo' / 2, m - 1)
    ensures Xor(x, x', m + k) == Xor(hi, hi', k) * Pow2(m) + Xor(lo, lo', m)
  {
    var p := Pow2(m - 1);
    assert Pow2(m) == 2 * p;
    HalveSplit(x, hi, lo, p);
    HalveSplit(x', hi', lo', p);
    var a, b := Xor(hi, hi', k), Xor(lo / 2, lo' / 2, m - 1);
    var bit := if lo % 2 == lo' % 2 then 0 else 1;
    var y := Distribute(a, p, b);
    assert Xor(x, x', m + k) == bit + 2 * y;
    assert Xor(lo, lo', m) == bit + 2 * b;
  }

  /** XorSplit for a low byte. */
  lemma XorByte(x: nat, x': nat, hi: nat, hi': nat, lo: nat, lo': nat, k: nat)
    requires lo < 256 && lo' < 256
    requires x == hi * 256 + lo && x' == hi' * 256 + lo'
    ensures Xor(lo, lo', 8) < 256
    ensures Xor(x, x', k + 8) == Xor(hi, hi', k) * 256 + Xor(lo, lo', 8)
  {
    Pow2Values();
    XorBound(lo, lo', 8);
    XorSplit(x, x', hi, hi', lo, lo', 8, k);
  }

  /** Halving `hi * 2p + lo` halves the low part and keeps its last binary digit. */
  lemma HalveSplit(x: nat, hi: nat, lo: nat, p: nat)
    requires lo < 2 * p && x == hi * (2 * p) + lo
    ensures x / 2 == hi * p + lo / 2 && x % 2 == lo % 2
    ensures lo / 2 < p
  {
    assert x == 2 * (hi * p) + lo;
  }

  /** Reducing a number below the modulus changes nothing. */
  lemma ModSmall(x: nat, m: nat)
    requires x < m
    ensures x % m == x
  {
  }

  lemma Distribute(a: nat, p: nat, b: nat) returns (y: nat)
    ensures y == a * p + b && 2 * y == a * (2 * p) + 2 * b
  {
    y := a * p + b;
  }
}
