/**
 The reflected CRC-32 of section 8 of RFC 1952, as the diagnostic bundle computes it, and the
 errors it is guaranteed to detect.

 A `u32` is a natural number below 2^32 and `^` is the bitwise recursion `Xor`.  The update is
 linear over `Xor` and kills only the zero register, which is all the detection proofs need.
 */
module Crc32 {
  import opened LittleEndian

  const POLYNOMIAL: nat := 0xedb8_8320
  const WORD_LIMIT: nat := 0x1_0000_0000

  function Xor(a: nat, b: nat): (x: nat)
    decreases a + b
  {
    if a == 0 then b
    else if b == 0 then a
    else (if Odd(a) != Odd(b) then 1 else 0) + 2 * Xor(a / 2, b / 2)
  }

  predicate Odd(a: nat) {
    a % 2 == 1
  }

  /** One shift of the register: drop the low bit and subtract the polynomial when it was set. */
  function ShiftBit(crc: nat): nat {
    if Odd(crc) then Xor(crc / 2, POLYNOMIAL) else crc / 2
  }

  function ShiftBits(crc: nat, count: nat): nat
    decreases count, crc
  {
    if count == 0 then crc else ShiftBits(ShiftBit(crc), count - 1)
  }

  /** The register after absorbing one byte. */
  function AbsorbByte(crc: nat, byte: Byte): nat {
    ShiftBits(Xor(crc, byte), 8)
  }

  function Absorb(crc: nat, bytes: seq<Byte>): nat
    decreases |bytes|, crc
  {
    if bytes == [] then crc else Absorb(AbsorbByte(crc, bytes[0]), bytes[1..])
  }

  /** Bitwise complement of a 32-bit word. */
  function Complement(word: nat): nat
    requires word < WORD_LIMIT
  {
    WORD_LIMIT - 1 - word
  }

  /** The checksum a bundle entry carries. */
  function Checksum(bytes: seq<Byte>): (checksum: nat)
    ensures checksum < WORD_LIMIT
  {
    AbsorbFits(WORD_LIMIT - 1, bytes);
    Complement(Absorb(WORD_LIMIT - 1, bytes))
  }

  /** The two nested loops of the implementation. */
  method Compute(bytes: seq<Byte>) returns (checksum: nat)
    ensures checksum == Checksum(bytes)
  {
    var crc: nat := WORD_LIMIT - 1;
    for i := 0 to |bytes|
      invariant Absorb(crc, bytes[i..]) == Absorb(WORD_LIMIT - 1, bytes)
    {
      ghost var rest := bytes[i..];
      assert rest[0] == bytes[i] && rest[1..] == bytes[i + 1..];
      crc := Xor(crc, bytes[i]);
      ghost var mixed := crc;
      for bit := 0 to 8
        invariant ShiftBits(crc, 8 - bit) == ShiftBits(mixed, 8)
      {
        crc := if Odd(crc) then Xor(crc / 2, POLYNOMIAL) else crc / 2;
      }
    }
    assert bytes[|bytes|..] == [];
    AbsorbFits(WORD_LIMIT - 1, bytes);
    checksum := Complement(crc);
  }

  // ---------------------------------------------------------------------------------------------
  // Xor
  // ---------------------------------------------------------------------------------------------

  /** The recursion's equation without its two shortcuts. */
  lemma {:induction false} XorStep(a: nat, b: nat)
    ensures Odd(Xor(a, b)) == (Odd(a) != Odd(b))
    ensures Xor(a, b) / 2 == Xor(a / 2, b / 2)
    decreases a + b
  {
  }

  lemma {:induction false} XorCommutes(a: nat, b: nat)
    ensures Xor(a, b) == Xor(b, a)
    decreases a + b
  {
    if a != 0 && b != 0 {
      XorCommutes(a / 2, b / 2);
    }
  }

  lemma {:induction false} XorAssociates(a: nat, b: nat, c: nat)
    ensures Xor(Xor(a, b), c) == Xor(a, Xor(b, c))
    decreases a + b + c
  {
    if a != 0 && b != 0 && c != 0 {
      var ab, bc := Xor(a, b), Xor(b, c);
      XorStep(a, b);
      XorStep(b, c);
      XorAssociates(a / 2, b / 2, c / 2);
      XorSameStep(ab, c, a, bc);
    }
  }

  /** Equal low bits and equal halves make equal words. */
  lemma XorSameStep(a: nat, b: nat, c: nat, d: nat)
    requires (Odd(a) != Odd(b)) == (Odd(c) != Odd(d))
    requires Xor(a / 2, b / 2) == Xor(c / 2, d / 2)
    ensures Xor(a, b) == Xor(c, d)
  {
    XorStep(a, b);
    XorStep(c, d);
  }

  lemma {:induction false} XorSelf(a: nat)
    ensures Xor(a, a) == 0
  {
    if a != 0 {
      XorSelf(a / 2);
    }
  }

  lemma XorZeroOnlyIfEqual(a: nat, b: nat)
    requires Xor(a, b) == 0
    ensures a == b
  {
    XorSelf(b);
    XorAssociates(a, b, b);
  }

  /** Words of `bits` bits are closed under Xor. */
  lemma {:induction false} XorFits(a: nat, b: nat, bits: nat)
    requires a < Pow2(bits) && b < Pow2(bits)
    ensures Xor(a, b) < Pow2(bits)
    decreases bits
  {
    if bits > 0 {
      XorFits(a / 2, b / 2, bits - 1);
      XorStep(a, b);
    }
  }

  function Pow2(bits: nat): (p: nat)
    ensures p > 0
  {
    if bits == 0 then 1 else 2 * Pow2(bits - 1)
  }

  lemma Pow2Of32()
    ensures Pow2(31) == 0x8000_0000 && Pow2(32) == WORD_LIMIT
  {
    assert Pow2(8) == 0x100;
    assert Pow2(16) == 0x1_0000;
    assert Pow2(24) == 0x100_0000;
  }

  // ---------------------------------------------------------------------------------------------
  // The update is linear, stays within 32 bits and loses nothing
  // ---------------------------------------------------------------------------------------------

  lemma ShiftBitFits(crc: nat)
    requires crc < WORD_LIMIT
    ensures ShiftBit(crc) < WORD_LIMIT
  {
    Pow2Of32();
    XorFits(crc / 2, POLYNOMIAL, 32);
  }

  lemma {:induction false} ShiftBitsFits(crc: nat, count: nat)
    requires crc < WORD_LIMIT
    ensures ShiftBits(crc, count) < WORD_LIMIT
    decreases count
  {
    if count > 0 {
      ShiftBitFits(crc);
      ShiftBitsFits(ShiftBit(crc), count - 1);
    }
  }

  lemma AbsorbByteFits(crc: nat, byte: Byte)
    requires crc < WORD_LIMIT
    ensures AbsorbByte(crc, byte) < WORD_LIMIT
  {
    Pow2Of32();
    XorFits(crc, byte, 32);
    ShiftBitsFits(Xor(crc, byte), 8);
  }

  lemma {:induction false} AbsorbFits(crc: nat, bytes: seq<Byte>)
    requires crc < WORD_LIMIT
    ensures Absorb(crc, bytes) < WORD_LIMIT
    decreases |bytes|
  {
    if bytes != [] {
      AbsorbByteFits(crc, bytes[0]);
      AbsorbFits(AbsorbByte(crc, bytes[0]), bytes[1..]);
    }
  }

  lemma ShiftBitLinear(a: nat, b: nat)
    ensures ShiftBit(Xor(a, b)) == Xor(ShiftBit(a), ShiftBit(b))
  {
    var p, x, y := POLYNOMIAL, a / 2, b / 2;
    XorStep(a, b);
    if Odd(a) && Odd(b) {
      // (x ^ p) ^ (y ^ p) == x ^ (p ^ p) ^ y
      XorCommutes(y, p);
      XorAssociates(Xor(x, p), p, y);
      XorAssociates(x, p, p);
      XorSelf(p);
    } else if Odd(a) {
      XorAssociates(x, p, y);
      XorCommutes(p, y);
      XorAssociates(x, y, p);
    } else if Odd(b) {
      XorAssociates(x, y, p);
    }
  }

  lemma {:induction false} ShiftBitsLinear(a: nat, b: nat, count: nat)
    ensures ShiftBits(Xor(a, b), count) == Xor(ShiftBits(a, count), ShiftBits(b, count))
    decreases count
  {
    if count > 0 {
      ShiftBitLinear(a, b);
      ShiftBitsLinear(ShiftBit(a), ShiftBit(b), count - 1);
    }
  }

  /** Half of a 32-bit word can not equal the polynomial, whose top bit is set. */
  lemma ShiftBitKernel(crc: nat)
    requires crc < WORD_LIMIT && ShiftBit(crc) == 0
    ensures crc == 0
  {
    if Odd(crc) {
      XorZeroOnlyIfEqual(crc / 2, POLYNOMIAL);
    }
  }

  lemma {:induction false} ShiftBitsKernel(crc: nat, count: nat)
    requires crc < WORD_LIMIT && ShiftBits(crc, count) == 0
    ensures crc == 0
    decreases count
  {
    if count > 0 {
      ShiftBitFits(crc);
      ShiftBitsKernel(ShiftBit(crc), count - 1);
      ShiftBitKernel(crc);
    }
  }

  lemma ShiftBitsInjective(a: nat, b: nat, count: nat)
    requires a < WORD_LIMIT && b < WORD_LIMIT
    requires ShiftBits(a, count) == ShiftBits(b, count)
    ensures a == b
  {
    ShiftBitsLinear(a, b, count);
    XorSelf(ShiftBits(a, count));
    Pow2Of32();
    XorFits(a, b, 32);
    ShiftBitsKernel(Xor(a, b), count);
    XorZeroOnlyIfEqual(a, b);
  }

  /** For a fixed byte, absorbing is one-to-one on 32-bit registers. */
  lemma AbsorbByteInjective(a: nat, b: nat, byte: Byte)
    requires a < WORD_LIMIT && b < WORD_LIMIT
    requires AbsorbByte(a, byte) == AbsorbByte(b, byte)
    ensures a == b
  {
    Pow2Of32();
    XorFits(a, byte, 32);
    XorFits(b, byte, 32);
    ShiftBitsInjective(Xor(a, byte), Xor(b, byte), 8);
    XorCancels(a, b, byte);
  }

  lemma XorCancels(a: nat, b: nat, x: nat)
    requires Xor(a, x) == Xor(b, x)
    ensures a == b
  {
    XorAssociates(a, x, x);
    XorAssociates(b, x, x);
    XorSelf(x);
  }

  /** The inverse of one shift. */
  function UnshiftBit(crc: nat): nat {
    if crc >= 0x8000_0000 then 2 * Xor(crc, POLYNOMIAL) + 1 else 2 * crc
  }

  /** Every 32-bit register is the image of a 32-bit register under a shift. */
  lemma ShiftBitSurjective(crc: nat)
    requires crc < WORD_LIMIT
    ensures UnshiftBit(crc) < WORD_LIMIT && ShiftBit(UnshiftBit(crc)) == crc
  {
    if crc >= 0x8000_0000 {
      Pow2Of32();
      TopBitCancels(crc, POLYNOMIAL, 31);
      OddUnshift(Xor(crc, POLYNOMIAL));
      XorAssociates(crc, POLYNOMIAL, POLYNOMIAL);
      XorSelf(POLYNOMIAL);
    }
  }

  lemma OddUnshift(half: nat)
    ensures ShiftBit(2 * half + 1) == Xor(half, POLYNOMIAL)
  {
    assert Odd(2 * half + 1) && (2 * half + 1) / 2 == half;
  }

  lemma {:induction false} TopBitCancels(a: nat, b: nat, bits: nat)
    requires Pow2(bits) <= a < 2 * Pow2(bits) && Pow2(bits) <= b < 2 * Pow2(bits)
    ensures Xor(a, b) < Pow2(bits)
    decreases bits
  {
    XorStep(a, b);
    if bits > 0 {
      TopBitCancels(a / 2, b / 2, bits - 1);
    }
  }

  lemma {:induction false} ShiftBitsSurjective(r: nat, count: nat) returns (a: nat)
    requires r < WORD_LIMIT
    ensures a < WORD_LIMIT && ShiftBits(a, count) == r
    decreases count
  {
    a := r;
    if count > 0 {
      var mid := ShiftBitsSurjective(r, count - 1);
      ShiftBitSurjective(mid);
      a := UnshiftBit(mid);
    }
  }

  /** For a fixed byte, absorbing reaches every 32-bit register. */
  lemma AbsorbByteSurjective(r: nat, byte: Byte) returns (a: nat)
    requires r < WORD_LIMIT
    ensures a < WORD_LIMIT && AbsorbByte(a, byte) == r
  {
    var mid := ShiftBitsSurjective(r, 8);
    a := Xor(mid, byte);
    Pow2Of32();
    XorFits(mid, byte, 32);
    XorAssociates(mid, byte, byte);
    XorSelf(byte);
  }

  lemma {:induction false} AbsorbInjective(a: nat, b: nat, bytes: seq<Byte>)
    requires a < WORD_LIMIT && b < WORD_LIMIT
    requires Absorb(a, bytes) == Absorb(b, bytes)
    ensures a == b
    decreases |bytes|
  {
    if bytes != [] {
      AbsorbByteFits(a, bytes[0]);
      AbsorbByteFits(b, bytes[0]);
      AbsorbInjective(AbsorbByte(a, bytes[0]), AbsorbByte(b, bytes[0]), bytes[1..]);
      AbsorbByteInjective(a, b, bytes[0]);
    }
  }

  lemma {:induction false} AbsorbConcat(crc: nat, front: seq<Byte>, back: seq<Byte>)
    ensures Absorb(crc, front + back) == Absorb(Absorb(crc, front), back)
    decreases |front|
  {
    if front == [] {
      assert front + back == back;
    } else {
      assert (front + back)[0] == front[0] && (front + back)[1..] == front[1..] + back;
      AbsorbConcat(AbsorbByte(crc, front[0]), front[1..], back);
    }
  }

  // ---------------------------------------------------------------------------------------------
  // Bursts of at most four bytes
  // ---------------------------------------------------------------------------------------------

  lemma WordFits(bytes: seq<Byte>)
    requires |bytes| <= 4
    ensures Word(bytes) < WORD_LIMIT
  {
    if |bytes| > 0 {
      var b1 := bytes[1..];
      if |b1| > 0 {
        var b2 := b1[1..];
        if |b2| > 0 {
          var b3 := b2[1..];
          if |b3| > 0 {
            assert Word(b3[1..]) == 0;
          }
        }
      }
    }
  }

  /** A low part below 2^bits and a multiple of 2^bits do not interact. */
  lemma {:induction false} XorDisjoint(low: nat, high: nat, bits: nat)
    requires low < Pow2(bits)
    ensures Xor(low, Pow2(bits) * high) == low + Pow2(bits) * high
    decreases bits
  {
    if bits > 0 {
      var half := Pow2(bits - 1);
      assert Pow2(bits) * high == 2 * (half * high);
      XorDisjoint(low / 2, high, bits - 1);
      XorStep(low, Pow2(bits) * high);
    }
  }

  /** Shifting out zero bits divides. */
  lemma {:induction false} ShiftBitsOfMultiple(high: nat, count: nat)
    ensures ShiftBits(Pow2(count) * high, count) == high
    decreases count
  {
    if count > 0 {
      var half := Pow2(count - 1);
      assert Pow2(count) * high == 2 * (half * high);
      ShiftBitsOfMultiple(high, count - 1);
    }
  }

  lemma {:induction false} ShiftBitsCompose(crc: nat, a: nat, b: nat)
    ensures ShiftBits(ShiftBits(crc, a), b) == ShiftBits(crc, a + b)
    decreases a
  {
    if a > 0 {
      ShiftBitsCompose(ShiftBit(crc), a - 1, b);
    }
  }

  /** Bytes not yet reached only wait in the register's high part. */
  lemma AbsorbByteWithPending(crc: nat, byte: Byte, pending: nat)
    ensures ShiftBits(Xor(crc, byte + 256 * pending), 8) == Xor(AbsorbByte(crc, byte), pending)
  {
    assert Pow2(8) == 256;
    XorDisjoint(byte, pending, 8);
    XorAssociates(crc, byte, 256 * pending);
    ShiftBitsLinear(Xor(crc, byte), 256 * pending, 8);
    ShiftBitsOfMultiple(pending, 8);
  }

  /** Absorbing a byte string is shifting the register mixed with the whole string at once. */
  lemma {:induction false} AbsorbIsWordShift(crc: nat, bytes: seq<Byte>)
    ensures Absorb(crc, bytes) == ShiftBits(Xor(crc, Word(bytes)), 8 * |bytes|)
    decreases |bytes|
  {
    if bytes == [] {
      XorCommutes(crc, 0);
    } else {
      var rest := bytes[1..];
      AbsorbIsWordShift(AbsorbByte(crc, bytes[0]), rest);
      AbsorbByteWithPending(crc, bytes[0], Word(rest));
      ShiftBitsCompose(Xor(crc, Word(bytes)), 8, 8 * |rest|);
    }
  }

  /** Different strings of at most four bytes drive one register to different registers. */
  lemma BurstSeparates(crc: nat, a: seq<Byte>, b: seq<Byte>)
    requires crc < WORD_LIMIT
    requires |a| == |b| <= 4 && a != b
    ensures Absorb(crc, a) != Absorb(crc, b)
  {
    if Absorb(crc, a) == Absorb(crc, b) {
      AbsorbIsWordShift(crc, a);
      AbsorbIsWordShift(crc, b);
      WordFits(a);
      WordFits(b);
      Pow2Of32();
      XorFits(crc, Word(a), 32);
      XorFits(crc, Word(b), 32);
      ShiftBitsInjective(Xor(crc, Word(a)), Xor(crc, Word(b)), 8 * |a|);
      XorCommutes(crc, Word(a));
      XorCommutes(crc, Word(b));
      XorCancels(Word(a), Word(b), crc);
      WordInjective(a, b);
    }
  }

  /** Every corruption confined to four consecutive bytes changes the checksum. */
  lemma BurstDetected(front: seq<Byte>, a: seq<Byte>, b: seq<Byte>, back: seq<Byte>)
    requires |a| == |b| <= 4 && a != b
    ensures Checksum(front + a + back) != Checksum(front + b + back)
  {
    var start := Absorb(WORD_LIMIT - 1, front);
    AbsorbFits(WORD_LIMIT - 1, front);
    BurstSeparates(start, a, b);
    AbsorbFits(start, a);
    AbsorbFits(start, b);
    AbsorbConcat(WORD_LIMIT - 1, front + a, back);
    AbsorbConcat(WORD_LIMIT - 1, front + b, back);
    AbsorbConcat(WORD_LIMIT - 1, front, a);
    AbsorbConcat(WORD_LIMIT - 1, front, b);
    if Checksum(front + a + back) == Checksum(front + b + back) {
      AbsorbInjective(Absorb(start, a), Absorb(start, b), back);
    }
  }

  /** Two inputs of one length that differ in exactly one byte never share a checksum. */
  lemma SingleByteDetected(a: seq<Byte>, b: seq<Byte>, i: nat)
    requires |a| == |b| && i < |a| && a[i] != b[i]
    requires forall k :: 0 <= k < |a| && k != i ==> a[k] == b[k]
    ensures Checksum(a) != Checksum(b)
  {
    assert a == a[..i] + [a[i]] + a[i + 1..];
    assert b == a[..i] + [b[i]] + a[i + 1..];
    BurstDetected(a[..i], [a[i]], [b[i]], a[i + 1..]);
  }
}
