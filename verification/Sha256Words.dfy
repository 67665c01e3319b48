/**
 The word operations of SHA-256: as section 4 of FIPS 180-4 defines them, and as the macros of
 Assignment3/src/sha256.c compute them. A word is a number below 2^32; the bitwise operators
 are those of BitMasks, and `Not` continues with ones beyond bit 31, where every use masks
 them away.
 */
module Sha256Words {
  import opened BitMasks
  import opened ByteLanes
  import opened Bytes

  function Shr(x: nat, n: nat): nat {
    DivMod(x, Power2(n));
    x / Power2(n)
  }

  function Shl(x: nat, n: nat): nat { x * Power2(n) % M32 }
  function Rotr(x: nat, n: nat): nat requires n <= 32 { Or(Shr(x, n), Shl(x, 32 - n)) }
  function Rotl(x: nat, n: nat): nat requires n <= 32 { Or(Shl(x, n), Shr(x, 32 - n)) }

  function BigSigma0(x: nat): nat { Xor(Xor(Rotr(x, 2), Rotr(x, 13)), Rotr(x, 22)) }
  function BigSigma1(x: nat): nat { Xor(Xor(Rotr(x, 6), Rotr(x, 11)), Rotr(x, 25)) }
  function SmallSigma0(x: nat): nat { Xor(Xor(Rotr(x, 7), Rotr(x, 18)), Shr(x, 3)) }
  function SmallSigma1(x: nat): nat { Xor(Xor(Rotr(x, 17), Rotr(x, 19)), Shr(x, 10)) }

  // ---------- FIPS 180-4, equations 4.2 and 4.3 ----------

  function Ch(x: nat, y: nat, z: nat): nat { Xor(And(x, y), And(Not(x), z)) }
  function Maj(x: nat, y: nat, z: nat): nat { Xor(Xor(And(x, y), And(x, z)), And(y, z)) }

  // ---------- the macros ----------

  function ChMacro(x: nat, y: nat, z: nat): nat { Xor(z, And(x, Xor(y, z))) }
  function MajMacro(x: nat, y: nat, z: nat): nat { Or(And(x, Or(y, z)), And(y, z)) }

  /** BYTESWAP on a little-endian machine. */
  function ByteSwap(x: nat): nat { Or(And(Rotr(x, 8), 0xff00ff00), And(Rotl(x, 8), 0x00ff00ff)) }

  // ---------- Ch and Maj, bit by bit ----------

  lemma ChMacroParts(x: nat, y: nat, z: nat)
    ensures ChMacro(x, y, z) / 2 == ChMacro(x / 2, y / 2, z / 2)
    ensures ChMacro(x, y, z) % 2 == if x % 2 == 1 then y % 2 else z % 2
  {
    XorParts(y, z);
    AndParts(x, Xor(y, z));
    XorParts(z, And(x, Xor(y, z)));
  }

  lemma ChParts(x: nat, y: nat, z: nat)
    ensures Ch(x, y, z) / 2 == Ch(x / 2, y / 2, z / 2)
    ensures Ch(x, y, z) % 2 == if x % 2 == 1 then y % 2 else z % 2
  {
    AndParts(x, y);
    AndParts(Not(x), z);
    assert Not(x) / 2 == Not(x / 2);
    XorParts(And(x, y), And(Not(x), z));
  }

  /** The rewritten Ch of the C code is the one of the standard. */
  lemma {:induction false} ChRewritten(x: nat, y: nat, z: nat)
    ensures ChMacro(x, y, z) == Ch(x, y, z)
    decreases x + y + z
  {
    if x == 0 && y == 0 && z == 0 {
    } else {
      ChRewritten(x / 2, y / 2, z / 2);
      ChMacroParts(x, y, z);
      ChParts(x, y, z);
    }
  }

  function Majority(a: nat, b: nat, c: nat): nat { if a % 2 + b % 2 + c % 2 >= 2 then 1 else 0 }

  lemma MajMacroParts(x: nat, y: nat, z: nat)
    ensures MajMacro(x, y, z) / 2 == MajMacro(x / 2, y / 2, z / 2)
    ensures MajMacro(x, y, z) % 2 == Majority(x, y, z)
  {
    OrParts(y, z);
    AndParts(x, Or(y, z));
    AndParts(y, z);
    OrParts(And(x, Or(y, z)), And(y, z));
  }

  lemma MajParts(x: nat, y: nat, z: nat)
    ensures Maj(x, y, z) / 2 == Maj(x / 2, y / 2, z / 2)
    ensures Maj(x, y, z) % 2 == Majority(x, y, z)
  {
    AndParts(x, y);
    AndParts(x, z);
    AndParts(y, z);
    XorParts(And(x, y), And(x, z));
    XorParts(Xor(And(x, y), And(x, z)), And(y, z));
  }

  /** The rewritten Maj of the C code is the one of the standard. */
  lemma {:induction false} MajRewritten(x: nat, y: nat, z: nat)
    ensures MajMacro(x, y, z) == Maj(x, y, z)
    decreases x + y + z
  {
    if x == 0 && y == 0 && z == 0 {
    } else {
      MajRewritten(x / 2, y / 2, z / 2);
      MajMacroParts(x, y, z);
      MajParts(x, y, z);
    }
  }

  // ---------- BYTESWAP ----------

  lemma ShiftsRight(b3: nat, b2: nat, b1: nat, b0: nat)
    requires b3 < 256 && b2 < 256 && b1 < 256 && b0 < 256
    ensures Join(b3, b2, b1, b0) / 256 == Join(0, b3, b2, b1)
    ensures Join(b3, b2, b1, b0) / 0x100_0000 == Join(0, 0, 0, b3)
  {}

  lemma ShiftsLeft(b3: nat, b2: nat, b1: nat, b0: nat)
    requires b3 < 256 && b2 < 256 && b1 < 256 && b0 < 256
    ensures Join(b3, b2, b1, b0) * 256 % M32 == Join(b2, b1, b0, 0)
    ensures Join(b3, b2, b1, b0) * 0x100_0000 % M32 == Join(b0, 0, 0, 0)
  {
    JoinSplits(b2, b1, b0, 0);
    JoinSplits(b0, 0, 0, 0);
    Wrapped(b3, Join(b2, b1, b0, 0));
    Wrapped(b3 * 0x1_0000 + b2 * 0x100 + b1, Join(b0, 0, 0, 0));
  }

  lemma Wrapped(q: nat, r: nat)
    requires r < 0x1_0000_0000
    ensures (r + q * 0x1_0000_0000) % M32 == r
  {}

  lemma Rotations(b3: nat, b2: nat, b1: nat, b0: nat)
    requires b3 < 256 && b2 < 256 && b1 < 256 && b0 < 256
    ensures Rotr(Join(b3, b2, b1, b0), 8) == Join(b0, b3, b2, b1)
    ensures Rotl(Join(b3, b2, b1, b0), 8) == Join(b2, b1, b0, b3)
  {
    assert Power2(8) == 256;
    assert Power2(24) == 0x100_0000 by { assert Power2(16) == 0x1_0000; }
    hide And, Or, Join;
    ShiftsRight(b3, b2, b1, b0);
    ShiftsLeft(b3, b2, b1, b0);
    BytesApart(0, b3, b2, b1, b0, 0, 0, 0);
    BytesApart(b2, b1, b0, 0, 0, 0, 0, b3);
    OrZeroLeft(b0);
    OrZeroLeft(b3);
    OrZero(b3);
    OrZero(b2);
    OrZero(b1);
    OrZero(b0);
  }

  /** BYTESWAP of a word loaded from memory is the word those bytes stand for in the standard. */
  lemma ByteSwapReverses(b: seq<Octet>)
    requires |b| == 4
    ensures ByteSwap(LittleEndian(b)) == BigEndian(b)
  {
    var b0, b1, b2, b3 := b[0] as nat, b[1] as nat, b[2] as nat, b[3] as nat;
    Rotations(b3, b2, b1, b0);
    assert Power2(8) == 256;
    AndMask(b0, 8);
    AndMask(b1, 8);
    AndMask(b2, 8);
    AndMask(b3, 8);
    BytesApart(b0, b3, b2, b1, 0xff, 0, 0xff, 0);
    BytesApart(b2, b1, b0, b3, 0, 0xff, 0, 0xff);
    assert And(Rotr(LittleEndian(b), 8), 0xff00ff00) == Join(b0, 0, b2, 0);
    assert And(Rotl(LittleEndian(b), 8), 0x00ff00ff) == Join(0, b1, 0, b3);
    BytesApart(b0, 0, b2, 0, 0, b1, 0, b3);
    OrZero(b0);
    OrZero(b2);
    OrZeroLeft(b1);
    OrZeroLeft(b3);
  }

  // ---------- the functions of the standard, bit by bit ----------

  /** How many of three hold. */
  function Count3(a: bool, b: bool, c: bool): nat {
    (if a then 1 else 0) + (if b then 1 else 0) + (if c then 1 else 0)
  }

  lemma {:induction false} ShiftedDown(x: nat, n: nat, i: nat)
    ensures BitAt(Shr(x, n), i) <==> BitAt(x, n + i)
    decreases n
  {
    hide BitAt;
    if n > 0 {
      ShiftedDown(x / 2, n - 1, i);
      DividedTwice(x, Power2(n - 1));
      BitAtStep(x, n + i);
    }
  }

  lemma {:induction false} ShiftedUp(x: nat, n: nat, i: nat)
    ensures BitAt(x * Power2(n), i) <==> n <= i && BitAt(x, i - n)
    decreases n
  {
    hide BitAt;
    if n > 0 {
      var y := x * Power2(n - 1);
      assert x * Power2(n) == 2 * y;
      BitAtStep(2 * y, i);
      if i > 0 { ShiftedUp(x, n - 1, i - 1); }
    }
  }

  /** A rotation to the right moves bit i + n, counted around the 32 bits, to bit i. */
  lemma RotatedBit(x: nat, n: nat, i: nat)
    requires x < M32 && n <= 32 && i < 32
    ensures BitAt(Rotr(x, n), i) <==> BitAt(x, (i + n) % 32)
  {
    assert (i + n) % 32 == if i + n < 32 then i + n else i + n - 32;
    hide BitAt, Rotr, Power2;
    EitherPart(x, n, i);
    ShiftedIn(x, n, i);
    ShiftedAround(x, 32 - n, i);
  }

  lemma EitherPart(x: nat, n: nat, i: nat)
    requires n <= 32
    ensures BitAt(Rotr(x, n), i) <==> BitAt(Shr(x, n), i) || BitAt(Shl(x, 32 - n), i)
  {
    hide Power2, Or, Bit, Shr, Shl;
    AndOrBit(Shr(x, n), Shl(x, 32 - n), Power2(i));
  }

  lemma ShiftedAround(x: nat, n: nat, i: nat)
    requires i < 32
    ensures BitAt(Shl(x, n), i) <==> n <= i && BitAt(x, i - n)
  {
    Power32();
    hide BitAt, Power2;
    ShiftedUp(x, n, i);
    LowBitsKept(x * Power2(n), 32, i);
  }

  lemma XorOfThree(a: nat, b: nat, c: nat, i: nat)
    ensures BitAt(Xor(Xor(a, b), c), i) <==> Count3(BitAt(a, i), BitAt(b, i), BitAt(c, i)) % 2 == 1
  {
    hide Xor, Bit, Power2;
    XorBit(a, b, Power2(i));
    XorBit(Xor(a, b), c, Power2(i));
  }

  /** Equation 4.4 of FIPS 180-4: rotations by 2, 13 and 22. */
  lemma BigSigma0Bits(x: nat, i: nat)
    requires x < M32 && i < 32
    ensures BitAt(BigSigma0(x), i)
      <==> Count3(BitAt(x, (i + 2) % 32), BitAt(x, (i + 13) % 32), BitAt(x, (i + 22) % 32)) % 2 == 1
  {
    hide BitAt, Rotr;
    XorOfThree(Rotr(x, 2), Rotr(x, 13), Rotr(x, 22), i);
    RotatedBit(x, 2, i);
    RotatedBit(x, 13, i);
    RotatedBit(x, 22, i);
  }

  /** Equation 4.5 of FIPS 180-4: rotations by 6, 11 and 25. */
  lemma BigSigma1Bits(x: nat, i: nat)
    requires x < M32 && i < 32
    ensures BitAt(BigSigma1(x), i)
      <==> Count3(BitAt(x, (i + 6) % 32), BitAt(x, (i + 11) % 32), BitAt(x, (i + 25) % 32)) % 2 == 1
  {
    hide BitAt, Rotr;
    XorOfThree(Rotr(x, 6), Rotr(x, 11), Rotr(x, 25), i);
    RotatedBit(x, 6, i);
    RotatedBit(x, 11, i);
    RotatedBit(x, 25, i);
  }

  /** Equation 4.6 of FIPS 180-4: rotations by 7 and 18, and a shift by 3, which brings in zeros. */
  lemma SmallSigma0Bits(x: nat, i: nat)
    requires x < M32 && i < 32
    ensures BitAt(SmallSigma0(x), i)
      <==> Count3(BitAt(x, (i + 7) % 32), BitAt(x, (i + 18) % 32), i + 3 < 32 && BitAt(x, i + 3)) % 2 == 1
  {
    hide BitAt, Rotr, Shr;
    XorOfThree(Rotr(x, 7), Rotr(x, 18), Shr(x, 3), i);
    RotatedBit(x, 7, i);
    RotatedBit(x, 18, i);
    ShiftedIn(x, 3, i);
  }

  /** Equation 4.7 of FIPS 180-4: rotations by 17 and 19, and a shift by 10. */
  lemma SmallSigma1Bits(x: nat, i: nat)
    requires x < M32 && i < 32
    ensures BitAt(SmallSigma1(x), i)
      <==> Count3(BitAt(x, (i + 17) % 32), BitAt(x, (i + 19) % 32), i + 10 < 32 && BitAt(x, i + 10)) % 2 == 1
  {
    hide BitAt, Rotr, Shr;
    XorOfThree(Rotr(x, 17), Rotr(x, 19), Shr(x, 10), i);
    RotatedBit(x, 17, i);
    RotatedBit(x, 19, i);
    ShiftedIn(x, 10, i);
  }

  lemma ShiftedIn(x: nat, n: nat, i: nat)
    requires x < M32
    ensures BitAt(Shr(x, n), i) <==> i + n < 32 && BitAt(x, i + n)
  {
    hide BitAt, Shr;
    Power32();
    ShiftedDown(x, n, i);
    if n + i >= 32 { BeyondTop(x, 32, n + i); }
  }

  /** Equation 4.2 of FIPS 180-4: x chooses between y and z. */
  lemma {:induction false} ChBits(x: nat, y: nat, z: nat, i: nat)
    ensures BitAt(Ch(x, y, z), i) <==> if BitAt(x, i) then BitAt(y, i) else BitAt(z, i)
    decreases i
  {
    hide BitAt, Ch;
    ChParts(x, y, z);
    BitAtStep(x, i);
    BitAtStep(y, i);
    BitAtStep(z, i);
    BitAtStep(Ch(x, y, z), i);
    if i > 0 { ChBits(x / 2, y / 2, z / 2, i - 1); }
  }

  /** Equation 4.3 of FIPS 180-4: the majority of x, y and z. */
  lemma {:induction false} MajBits(x: nat, y: nat, z: nat, i: nat)
    ensures BitAt(Maj(x, y, z), i) <==> Count3(BitAt(x, i), BitAt(y, i), BitAt(z, i)) >= 2
    decreases i
  {
    hide BitAt, Maj;
    MajParts(x, y, z);
    BitAtStep(x, i);
    BitAtStep(y, i);
    BitAtStep(z, i);
    BitAtStep(Maj(x, y, z), i);
    if i > 0 { MajBits(x / 2, y / 2, z / 2, i - 1); }
  }

  /** Two words with the same 32 bits are the same. */
  lemma {:induction false} SameBits(x: nat, y: nat, n: nat)
    requires x < Power2(n) && y < Power2(n) && forall i :: 0 <= i < n ==> (BitAt(x, i) <==> BitAt(y, i))
    ensures x == y
  {
    hide BitAt;
    if n > 0 {
      BitAtStep(x, 0);
      BitAtStep(y, 0);
      forall i | 0 <= i < n - 1 ensures BitAt(x / 2, i) <==> BitAt(y / 2, i) {
        BitAtStep(x, i + 1);
        BitAtStep(y, i + 1);
      }
      SameBits(x / 2, y / 2, n - 1);
    }
  }
}
