/**
  Bit-level arithmetic on unbounded naturals.

  The firmware extracts bits with `(x >> k) & 1`, assembles bytes with
  `val |= bit << i` and relies on the EEPROM seeing only the low 15 of the
  16 address lines.  These are stated here with division by two only, so the
  proofs stay in linear arithmetic.
*/
module Bits {

  function Pow2(n: nat): (p: nat)
    ensures p >= 1
  {
    if n == 0 then 1 else 2 * Pow2(n - 1)
  }

  /** `(x >> k) & 1` */
  function Bit(x: nat, k: nat): (b: nat)
    ensures b <= 1
  {
    if k == 0 then x % 2 else Bit(x / 2, k - 1)
  }

  /** `x & ((1 << k) - 1)`: the value of bits 0..k-1 of x. */
  function Low(x: nat, k: nat): nat
  {
    if k == 0 then 0 else x % 2 + 2 * Low(x / 2, k - 1)
  }

  /** `x >> k` */
  function Shr(x: nat, k: nat): nat
  {
    if k == 0 then x else Shr(x / 2, k - 1)
  }

  /** Bits 0..n-1 of x, least significant first. */
  function BitsOf(x: nat, n: nat): (bs: seq<nat>)
    ensures |bs| == n && forall k :: 0 <= k < n ==> bs[k] <= 1
  {
    seq(n, k requires 0 <= k < n => Bit(x, k))
  }

  /** The number whose bit k is `bits[k]`: the value seen on a little-endian bus. */
  function FromBits(bits: seq<nat>): nat
  {
    if bits == [] then 0
    else FromBits(bits[..|bits| - 1]) + bits[|bits| - 1] * Pow2(|bits| - 1)
  }

  /** A sequence of n binary digits denotes a number below 2^n. */
  lemma {:induction false} FromBitsBound(bits: seq<nat>)
    requires forall k :: 0 <= k < |bits| ==> bits[k] <= 1
    ensures FromBits(bits) < Pow2(|bits|)
  {
    if bits != [] {
      FromBitsBound(bits[..|bits| - 1]);
    }
  }

  /** Adding bit k on top of bits 0..k-1, as `val |= bit << k` does. */
  lemma {:induction false} LowStep(x: nat, k: nat)
    ensures Low(x, k + 1) == Low(x, k) + Bit(x, k) * Pow2(k)
  {
    if k > 0 {
      LowStep(x / 2, k - 1);
    }
  }

  /** A number below 2^k is its own low k bits. */
  lemma {:induction false} LowFull(x: nat, k: nat)
    requires x < Pow2(k)
    ensures Low(x, k) == x
  {
    if k > 0 {
      LowFull(x / 2, k - 1);
    }
  }

  /** x splits into its low k bits and the bits above them. */
  lemma {:induction false} LowSplit(x: nat, k: nat)
    ensures Low(x, k) < Pow2(k)
    ensures x == Low(x, k) + Pow2(k) * Shr(x, k)
  {
    if k > 0 {
      var y := x / 2;
      LowSplit(y, k - 1);
      var l, p, s := Low(y, k - 1), Pow2(k - 1), Shr(y, k - 1);
      assert Low(x, k) == x % 2 + 2 * l && Pow2(k) == 2 * p && Shr(x, k) == s;
      Doubled(p, s);
    }
  }

  lemma Doubled(p: nat, s: nat)
    ensures (2 * p) * s == 2 * (p * s)
  {
  }

  lemma Pow2Values()
    ensures Pow2(8) == 256 && Pow2(15) == 32768 && Pow2(16) == 65536
  {
    assert Pow2(4) == 16;
    assert Pow2(8) == 256;
    assert Pow2(12) == 4096;
  }

  lemma ModOfSplit16(x: nat, l: nat, s: nat)
    requires l < 65536 && x == l + 65536 * s
    ensures x % 65536 == l
  {
  }

  lemma ModOfSplit(x: nat, l: nat, s: nat)
    requires l < 32768 && x == l + 32768 * s
    ensures x % 32768 == l
  {
  }

  /** The low 15 bits of x are x modulo 32768. */
  lemma Low15(x: nat)
    ensures Low(x, 15) == x % 32768
  {
    LowSplit(x, 15);
    Pow2Values();
    ModOfSplit(x, Low(x, 15), Shr(x, 15));
  }

  /** Reading back the bits of x gives its low n bits. */
  lemma {:induction false} FromBitsOf(x: nat, n: nat)
    ensures FromBits(BitsOf(x, n)) == Low(x, n)
  {
    if n > 0 {
      assert BitsOf(x, n)[..n - 1] == BitsOf(x, n - 1);
      FromBitsOf(x, n - 1);
      LowStep(x, n - 1);
    }
  }

  /** A byte is rebuilt exactly from its eight bits. */
  lemma ByteFromBits(v: nat)
    requires v < 256
    ensures FromBits(BitsOf(v, 8)) == v
  {
    FromBitsOf(v, 8);
    Pow2Values();
    LowFull(v, 8);
  }

  /** Bits 0..14 of a 16-bit bus carry the address modulo 32768. */
  lemma LowAddressBits(a: nat)
    ensures FromBits(BitsOf(a, 16)[..15]) == a % 32768
  {
    assert BitsOf(a, 16)[..15] == BitsOf(a, 15);
    FromBitsOf(a, 15);
    Low15(a);
  }

  /** The sixteen outputs of the register chain carry the address modulo 65536. */
  lemma WordFromBits(a: nat)
    ensures FromBits(BitsOf(a, 16)) == a % 65536
  {
    FromBitsOf(a, 16);
    LowSplit(a, 16);
    Pow2Values();
    ModOfSplit16(a, Low(a, 16), Shr(a, 16));
  }
}
