// lib/lzma/C/LzHash.h: the hashes of the next 2, 3 and 4 bytes, on 32-bit words as bit strings.
module LzHash {
  import opened SearchSpec

  function Pow2(k: nat): (p: nat)
    ensures 0 < p
  {
    if k == 0 then 1 else 2 * Pow2(k - 1)
  }

  /** Exclusive or, bit by bit. */
  function Xor(a: nat, b: nat): nat {
    if a == 0 && b == 0 then 0 else 2 * Xor(a / 2, b / 2) + (a % 2 + b % 2) % 2
  }

  /** The low k bits: `a & ((1 << k) - 1)`. */
  function Low(a: nat, k: nat): nat {
    if k == 0 then 0 else 2 * Low(a / 2, k - 1) + a % 2
  }

  lemma {:induction false} LowBound(a: nat, k: nat)
    ensures Low(a, k) < Pow2(k)
  {
    if k != 0 {
      LowBound(a / 2, k - 1);
    }
  }

  lemma {:induction false} LowOfSmall(a: nat, k: nat)
    requires a < Pow2(k)
    ensures Low(a, k) == a
  {
    if k != 0 {
      LowOfSmall(a / 2, k - 1);
    }
  }

  lemma LowXor(x: nat, b: nat, k: nat)
    requires 0 < k
    ensures Low(Xor(x, b), k) == 2 * Low(Xor(x / 2, b / 2), k - 1) + (x % 2 + b % 2) % 2
  {
    assert Xor(x, b) / 2 == Xor(x / 2, b / 2);
  }

  lemma LowHalves(b: nat, k: nat)
    requires 0 < k
    ensures Low(b, k) == 2 * Low(b / 2, k - 1) + b % 2
  {
  }

  lemma NoBits(b: nat)
    ensures Low(b, 0) == 0
  {
  }

  lemma BitsApart(p: nat, q: nat, x: nat, b: nat, c: nat)
    requires 2 * p + (x + b) % 2 == 2 * q + (x + c) % 2
    requires x < 2 && b < 2 && c < 2
    ensures p == q && b == c
  {
  }

  /** For a fixed word x, the low bits of x ^ b determine the low bits of b. */
  lemma {:induction false} XorCancels(x: nat, b: nat, c: nat, k: nat)
    requires Low(Xor(x, b), k) == Low(Xor(x, c), k)
    ensures Low(b, k) == Low(c, k)
    decreases k
  {
    hide Xor, Low;
    if k == 0 {
      NoBits(b);
      NoBits(c);
    } else {
      var x', b', c' := x / 2, b / 2, c / 2;
      assert Low(Xor(x', b'), k - 1) == Low(Xor(x', c'), k - 1) && b % 2 == c % 2 by {
        LowXor(x, b, k);
        LowXor(x, c, k);
        BitsApart(Low(Xor(x', b'), k - 1), Low(Xor(x', c'), k - 1), x % 2, b % 2, c % 2);
      }
      XorCancels(x', b', c', k - 1);
      LowHalves(b, k);
      LowHalves(c, k);
    }
  }

  lemma {:induction false} LowOfShifted(b: nat, j: nat)
    ensures Low(b * Pow2(j), j) == 0
  {
    if j != 0 {
      var half := b * Pow2(j - 1);
      assert b * Pow2(j) == 2 * half;
      LowOfShifted(b, j - 1);
      LowHalves(2 * half, j);
    }
  }

  /** Words whose low j bits are zero do not disturb the low j bits. */
  lemma {:induction false} XorAbove(x: nat, u: nat, j: nat)
    requires Low(u, j) == 0
    ensures Low(Xor(x, u), j) == Low(x, j)
    decreases j
  {
    hide Xor, Low;
    if j == 0 {
      NoBits(Xor(x, u));
      NoBits(x);
    } else {
      assert Low(u / 2, j - 1) == 0 && u % 2 == 0 by {
        LowHalves(u, j);
      }
      XorAbove(x / 2, u / 2, j - 1);
      assert Low(Xor(x, u), j) == 2 * Low(Xor(x / 2, u / 2), j - 1) + x % 2 by {
        LowXor(x, u, j);
      }
      LowHalves(x, j);
    }
  }

  lemma {:induction false} LowPrefix(a: nat, b: nat, j: nat, k: nat)
    requires j <= k && Low(a, k) == Low(b, k)
    ensures Low(a, j) == Low(b, j)
  {
    if j != 0 {
      LowPrefix(a / 2, b / 2, j - 1, k - 1);
    }
  }

  // ---- HASH4_CALC ----

  const HASH2_BITS: nat := 10
  const HASH3_BITS: nat := 16
  const HASH2_SIZE: nat := 1024
  const HASH3_SIZE: nat := 65536
  const FIX3: nat := HASH2_SIZE
  const FIX4: nat := HASH2_SIZE + HASH3_SIZE

  lemma SizesArePowers()
    ensures Pow2(8) == 256 && Pow2(HASH2_BITS) == HASH2_SIZE && Pow2(HASH3_BITS) == HASH3_SIZE
  {
    assert Pow2(4) == 16;
    assert Pow2(8) == 256;
    assert Pow2(12) == 4096;
  }

  function Temp(crc: seq<nat>, b0: Byte, b1: Byte): nat
    requires |crc| == 256
  {
    Xor(crc[b0], b1)
  }

  function Hash2(crc: seq<nat>, b0: Byte, b1: Byte): (h: nat)
    requires |crc| == 256
    ensures h < HASH2_SIZE
  {
    LowBound(Temp(crc, b0, b1), HASH2_BITS);
    SizesArePowers();
    Low(Temp(crc, b0, b1), HASH2_BITS)
  }

  function Hash3(crc: seq<nat>, b0: Byte, b1: Byte, b2: Byte): (h: nat)
    requires |crc| == 256
    ensures h < HASH3_SIZE
  {
    LowBound(Xor(Temp(crc, b0, b1), b2 * 256), HASH3_BITS);
    SizesArePowers();
    Low(Xor(Temp(crc, b0, b1), b2 * 256), HASH3_BITS)
  }

  function Hash4(crc: seq<nat>, hashBits: nat, b0: Byte, b1: Byte, b2: Byte, b3: Byte): (h: nat)
    requires |crc| == 256
    ensures h < Pow2(hashBits)
  {
    var word := Xor(Xor(Temp(crc, b0, b1), b2 * 256), crc[b3] * 32);
    LowBound(word, hashBits);
    Low(word, hashBits)
  }

  lemma {:induction false} XorNothing(a: nat)
    ensures Xor(a, 0) == a && Xor(0, a) == a
  {
    if a != 0 {
      XorNothing(a / 2);
    }
  }

  lemma XorBit(a: nat, b: nat)
    ensures Xor(a, b) == 2 * Xor(a / 2, b / 2) + (a % 2 + b % 2) % 2
  {
  }

  lemma ExampleXors()
    ensures Xor(1, 2) == 3 && Xor(3, 3 * 256) == 0x303 && Xor(0x303, 4 * 32) == 0x383
  {
    hide Xor;
    XorNothing(1);
    XorBit(1, 2);
    XorNothing(192);
    XorBit(1, 384);
    XorBit(3, 768);
    XorNothing(3);
    XorBit(6, 1);
    XorBit(12, 2);
    XorBit(24, 4);
    XorBit(48, 8);
    XorBit(96, 16);
    XorBit(192, 32);
    XorBit(385, 64);
    XorBit(771, 128);
  }

  /** The hashes of four bytes, in a table that leaves bytes as they are: 1 ^ 2, then ^ 3 << 8, then ^ 4 << 5. */
  lemma HashExample(crc: seq<nat>)
    requires |crc| == 256 && crc[1] == 1 && crc[4] == 4
    ensures Hash2(crc, 1, 2) == 3 && Hash3(crc, 1, 2, 3) == 0x303 && Hash4(crc, 16, 1, 2, 3, 4) == 0x383
  {
    hide Xor, Low;
    ExampleXors();
    SizesArePowers();
    LowOfSmall(3, HASH2_BITS);
    LowOfSmall(0x303, HASH3_BITS);
    LowOfSmall(0x383, 16);
  }

  /** Equal 2-byte hashes with equal first bytes are real 2-byte matches, whatever the crc table. */
  lemma Hash2Exact(crc: seq<nat>, b0: Byte, b1: Byte, c1: Byte)
    requires |crc| == 256 && Hash2(crc, b0, b1) == Hash2(crc, b0, c1)
    ensures b1 == c1
  {
    XorCancels(crc[b0], b1, c1, HASH2_BITS);
    SizesArePowers();
    LowOfSmall(b1, HASH2_BITS);
    LowOfSmall(c1, HASH2_BITS);
  }

  /** Equal 3-byte hashes with equal first bytes are real 3-byte matches, whatever the crc table. */
  lemma Hash3Exact(crc: seq<nat>, b0: Byte, b1: Byte, b2: Byte, c1: Byte, c2: Byte)
    requires |crc| == 256 && Hash3(crc, b0, b1, b2) == Hash3(crc, b0, c1, c2)
    ensures b1 == c1 && b2 == c2
  {
    var x, y := Temp(crc, b0, b1), Temp(crc, b0, c1);
    SizesArePowers();
    LowPrefix(Xor(x, b2 * 256), Xor(y, c2 * 256), 8, HASH3_BITS);
    LowOfShifted(b2, 8);
    LowOfShifted(c2, 8);
    XorAbove(x, b2 * 256, 8);
    XorAbove(y, c2 * 256, 8);
    XorCancels(crc[b0], b1, c1, 8);
    LowOfSmall(b1, 8);
    LowOfSmall(c1, 8);
    XorCancels(x, b2 * 256, c2 * 256, HASH3_BITS);
    LowOfSmall(b2 * 256, HASH3_BITS);
    LowOfSmall(c2 * 256, HASH3_BITS);
  }
}
