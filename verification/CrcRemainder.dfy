/**
 What the checksum is: the remainder section 8 of RFC 1952 asks for.  A polynomial over the two-element field
 is the set of its exponents, and adding two is taking what is in exactly one of them.
 */
module CrcRemainder {
  import opened LittleEndian
  import opened Crc32

  type Polynomial = set<int>

  /** x^32 + x^26 + x^23 + x^22 + x^16 + x^12 + x^11 + x^10 + x^8 + x^7 + x^5 + x^4 + x^2 + x + 1. */
  const GENERATOR: Polynomial := {32, 26, 23, 22, 16, 12, 11, 10, 8, 7, 5, 4, 2, 1, 0}

  function Plus(a: Polynomial, b: Polynomial): Polynomial {
    (a - b) + (b - a)
  }

  /** Multiplication by a power of x. */
  function Shifted(a: Polynomial, k: int): Polynomial {
    set e | e in a :: e + k
  }

  /** A register, the lowest bit being the highest coefficient. */
  function PolynomialOf(register: nat): Polynomial {
    if register == 0 then {} else
      (if Odd(register) then {31} else {}) + Shifted(PolynomialOf(register / 2), -1)
  }

  /** A sum of shifted generators. */
  function Multiple(shifts: seq<int>): Polynomial {
    if shifts == [] then {} else Plus(Shifted(GENERATOR, shifts[0]), Multiple(shifts[1..]))
  }

  /** Equal but for a multiple of the generator. */
  ghost predicate Congruent(a: Polynomial, b: Polynomial) {
    exists shifts :: a == Plus(b, Multiple(shifts))
  }

  lemma CongruentBy(a: Polynomial, b: Polynomial, shifts: seq<int>)
    requires a == Plus(b, Multiple(shifts))
    ensures Congruent(a, b)
  {
  }

  lemma PlusAssociates(a: Polynomial, b: Polynomial, c: Polynomial)
    ensures Plus(Plus(a, b), c) == Plus(a, Plus(b, c))
  {
  }

  lemma ShiftedPlus(a: Polynomial, b: Polynomial, k: int)
    ensures Shifted(Plus(a, b), k) == Plus(Shifted(a, k), Shifted(b, k))
  {
    forall e: int
      ensures e in Shifted(Plus(a, b), k) <==> e in Plus(Shifted(a, k), Shifted(b, k))
    {
      ShiftedHas(Plus(a, b), k, e);
      ShiftedHas(a, k, e);
      ShiftedHas(b, k, e);
    }
  }

  lemma ShiftedHas(a: Polynomial, k: int, e: int)
    ensures e in Shifted(a, k) <==> e - k in a
  {
    if e - k in a {
      assert (e - k) + k in Shifted(a, k);
    }
  }

  lemma ShiftedTwice(a: Polynomial, j: int, k: int)
    ensures Shifted(Shifted(a, j), k) == Shifted(a, j + k)
  {
    forall e: int
      ensures e in Shifted(Shifted(a, j), k) <==> e in Shifted(a, j + k)
    {
      ShiftedHas(Shifted(a, j), k, e);
      ShiftedHas(a, j, e - k);
      ShiftedHas(a, j + k, e);
    }
  }

  lemma NotShifted(a: Polynomial)
    ensures Shifted(a, 0) == a
  {
    forall e: int
      ensures e in Shifted(a, 0) <==> e in a
    {
      ShiftedHas(a, 0, e);
    }
  }

  lemma {:induction false} MultipleConcat(a: seq<int>, b: seq<int>)
    ensures Multiple(a + b) == Plus(Multiple(a), Multiple(b))
    decreases |a|
  {
    hide Plus;
    if a == [] {
      assert a + b == b;
      PlusNothing(Multiple(b));
    } else {
      assert (a + b)[0] == a[0] && (a + b)[1..] == a[1..] + b;
      MultipleConcat(a[1..], b);
      PlusAssociates(Shifted(GENERATOR, a[0]), Multiple(a[1..]), Multiple(b));
    }
  }

  lemma PlusNothing(a: Polynomial)
    ensures Plus({}, a) == a == Plus(a, {})
  {
  }

  lemma {:induction false} MultipleShifted(shifts: seq<int>, k: int) returns (more: seq<int>)
    ensures Multiple(more) == Shifted(Multiple(shifts), k)
    decreases |shifts|
  {
    hide Plus;
    if shifts == [] {
      more := [];
      assert Shifted({}, k) == {};
    } else {
      var rest := MultipleShifted(shifts[1..], k);
      more := [shifts[0] + k] + rest;
      assert more[1..] == rest;
      ShiftedPlus(Shifted(GENERATOR, shifts[0]), Multiple(shifts[1..]), k);
      ShiftedTwice(GENERATOR, shifts[0], k);
    }
  }

  lemma CongruentToItself(a: Polynomial)
    ensures Congruent(a, a)
  {
    PlusNothing(a);
    CongruentBy(a, a, []);
  }

  lemma CongruentChain(a: Polynomial, b: Polynomial, c: Polynomial)
    requires Congruent(a, b) && Congruent(b, c)
    ensures Congruent(a, c)
  {
    hide Plus;
    var first :| a == Plus(b, Multiple(first));
    var second :| b == Plus(c, Multiple(second));
    PlusAssociates(c, Multiple(second), Multiple(first));
    MultipleConcat(second, first);
    CongruentBy(a, c, second + first);
  }

  lemma CongruentShifted(a: Polynomial, b: Polynomial, k: int)
    requires Congruent(a, b)
    ensures Congruent(Shifted(a, k), Shifted(b, k))
  {
    hide Plus;
    var shifts :| a == Plus(b, Multiple(shifts));
    var more := MultipleShifted(shifts, k);
    ShiftedPlus(b, Multiple(shifts), k);
    CongruentBy(Shifted(a, k), Shifted(b, k), more);
  }

  lemma CongruentPlus(a: Polynomial, b: Polynomial, c: Polynomial)
    requires Congruent(a, b)
    ensures Congruent(Plus(a, c), Plus(b, c))
  {
    var shifts :| a == Plus(b, Multiple(shifts));
    assert Plus(a, c) == Plus(Plus(b, c), Multiple(shifts));
    CongruentBy(Plus(a, c), Plus(b, c), shifts);
  }

  // ---------------------------------------------------------------------------------------------
  // Registers
  // ---------------------------------------------------------------------------------------------

  lemma {:induction false} PolynomialBounds(register: nat)
    ensures forall e :: e in PolynomialOf(register) ==> e <= 31
    decreases register
  {
    if register > 0 {
      PolynomialBounds(register / 2);
    }
  }

  /** A register of `bits` bits has no exponent below 32 - bits. */
  lemma {:induction false} PolynomialOfWord(register: nat, bits: nat)
    requires register < Pow2(bits)
    ensures forall e :: e in PolynomialOf(register) ==> 32 - bits <= e <= 31
    decreases bits
  {
    if bits > 0 {
      PolynomialOfWord(register / 2, bits - 1);
    }
  }

  lemma PolynomialStep(register: nat)
    ensures PolynomialOf(register) ==
      (if Odd(register) then {31} else {}) + Shifted(PolynomialOf(register / 2), -1)
  {
  }

  lemma {:induction false} PolynomialOfXor(a: nat, b: nat)
    ensures PolynomialOf(Xor(a, b)) == Plus(PolynomialOf(a), PolynomialOf(b))
    decreases a + b
  {
    if a > 0 && b > 0 {
      hide Xor, PolynomialOf;
      XorStep(a, b);
      PolynomialOfXor(a / 2, b / 2);
      PolynomialStep(a);
      PolynomialStep(b);
      PolynomialStep(Xor(a, b));
      PolynomialBounds(a / 2);
      PolynomialBounds(b / 2);
      ShiftedPlus(PolynomialOf(a / 2), PolynomialOf(b / 2), -1);
      NotAbove(PolynomialOf(a / 2));
      NotAbove(PolynomialOf(b / 2));
    }
  }

  lemma NotAbove(a: Polynomial)
    requires forall e :: e in a ==> e <= 31
    ensures 31 !in Shifted(a, -1)
  {
    ShiftedHas(a, -1, 31);
  }

  /** Four more bits at the low end. */
  lemma NextNibble(high: nat, s: Polynomial, nibble: nat, lower: Polynomial, low: Polynomial)
    requires PolynomialOf(high) == s && nibble < 16
    requires forall e :: e in s <==> e - 4 in lower
    requires forall e :: e in low <==>
      28 <= e <= 31 && Odd(nibble / (if e == 31 then 1 else if e == 30 then 2 else if e == 29 then 4 else 8))
    ensures PolynomialOf(16 * high + nibble) == lower + low
  {
    hide PolynomialOf, Shifted;
    var r := 16 * high + nibble;
    assert r / 2 == 8 * high + nibble / 2 && r / 2 / 2 == 4 * high + nibble / 4
      && r / 2 / 2 / 2 == 2 * high + nibble / 8;
    assert r / 2 / 2 / 2 / 2 == high;
    forall e: int
      ensures e in PolynomialOf(r) <==> e in lower + low
    {
      BitBelow(r, e);
      BitBelow(r / 2, e + 1);
      BitBelow(r / 2 / 2, e + 2);
      BitBelow(r / 2 / 2 / 2, e + 3);
      PolynomialBounds(high);
      assert e + 4 in s <==> e + 4 - 4 in lower;
    }
  }

  lemma BitBelow(register: nat, e: int)
    ensures e in PolynomialOf(register) <==> (e == 31 && Odd(register)) || e + 1 in PolynomialOf(register / 2)
  {
    hide PolynomialOf;
    PolynomialStep(register);
    ShiftedHas(PolynomialOf(register / 2), -1, e);
  }

  lemma NoRegister()
    ensures PolynomialOf(0) == {}
  {
  }

  lemma FirstNibble()
    ensures PolynomialOf(0xe) == {30, 29, 28}
  {
    hide PolynomialOf, Shifted;
    NoRegister();
    forall e: int
      ensures e in PolynomialOf(0xe) <==> 28 <= e <= 30
    {
      BitBelow(0xe, e);
      BitBelow(7, e + 1);
      BitBelow(3, e + 2);
      BitBelow(1, e + 3);
    }
  }

  lemma FirstByte()
    ensures PolynomialOf(0xed) == {31, 29, 28, 26, 25, 24}
  {
    hide PolynomialOf, Shifted;
    FirstNibble();
    NextNibble(0xe, {30, 29, 28}, 0xd, {26, 25, 24}, {31, 29, 28});
  }

  lemma SecondByte()
    ensures PolynomialOf(0xedb8) == {28, 27, 26, 24, 23, 21, 20, 18, 17, 16}
  {
    hide PolynomialOf, Shifted;
    FirstByte();
    NextNibble(0xed, {31, 29, 28, 26, 25, 24}, 0xb, {27, 25, 24, 22, 21, 20}, {31, 30, 28});
    NextNibble(0xedb, {31, 30, 28, 27, 25, 24, 22, 21, 20}, 0x8, {27, 26, 24, 23, 21, 20, 18, 17, 16}, {28});
  }

  lemma ThirdByte()
    ensures PolynomialOf(0xed_b883) == {31, 30, 24, 20, 19, 18, 16, 15, 13, 12, 10, 9, 8}
  {
    hide PolynomialOf, Shifted;
    SecondByte();
    NextNibble(0xedb8, {28, 27, 26, 24, 23, 21, 20, 18, 17, 16}, 0x8, {24, 23, 22, 20, 19, 17, 16, 14, 13, 12}, {28});
    NextNibble(0xe_db88, {28, 24, 23, 22, 20, 19, 17, 16, 14, 13, 12}, 0x3,
               {24, 20, 19, 18, 16, 15, 13, 12, 10, 9, 8}, {31, 30});
  }

  lemma FourthByte()
    ensures PolynomialOf(0xedb8_8320) == {26, 23, 22, 16, 12, 11, 10, 8, 7, 5, 4, 2, 1, 0}
  {
    hide PolynomialOf, Shifted;
    ThirdByte();
    NextNibble(0xed_b883, {31, 30, 24, 20, 19, 18, 16, 15, 13, 12, 10, 9, 8}, 0x2,
               {27, 26, 20, 16, 15, 14, 12, 11, 9, 8, 6, 5, 4}, {30});
    NextNibble(0xedb_8832, {30, 27, 26, 20, 16, 15, 14, 12, 11, 9, 8, 6, 5, 4}, 0x0,
               {26, 23, 22, 16, 12, 11, 10, 8, 7, 5, 4, 2, 1, 0}, {});
  }

  /** The constant of the implementation is the generator without its leading term. */
  lemma GeneratorBits()
    ensures PolynomialOf(POLYNOMIAL) == GENERATOR - {32}
  {
    hide PolynomialOf;
    FourthByte();
  }

  // ---------------------------------------------------------------------------------------------
  // The checksum is a remainder
  // ---------------------------------------------------------------------------------------------

  /** One bit step multiplies by x and takes the generator off when the degree would be 32. */
  lemma ShiftBitReduces(crc: nat)
    ensures var product := Shifted(PolynomialOf(crc), 1);
      PolynomialOf(ShiftBit(crc)) == if 32 in product then Plus(product, GENERATOR) else product
  {
    hide PolynomialOf, Shifted, Xor;
    GeneratorBits();
    PolynomialOfXor(crc / 2, POLYNOMIAL);
    PolynomialBounds(crc / 2);
    var product := Shifted(PolynomialOf(crc), 1);
    forall e: int
      ensures e in product <==> (e == 32 && Odd(crc)) || e in PolynomialOf(crc / 2)
    {
      ShiftedHas(PolynomialOf(crc), 1, e);
      BitBelow(crc, e - 1);
    }
  }

  lemma {:induction false} ShiftBitsReduce(crc: nat, count: nat)
    ensures Congruent(PolynomialOf(ShiftBits(crc, count)), Shifted(PolynomialOf(crc), count))
    decreases count
  {
    hide PolynomialOf, Shifted, ShiftBit, Congruent, Plus;
    if count == 0 {
      NotShifted(PolynomialOf(crc));
      CongruentToItself(PolynomialOf(crc));
    } else {
      var next := ShiftBit(crc);
      ShiftBitsReduce(next, count - 1);
      ReducedIsCongruent(crc);
      CongruentShifted(PolynomialOf(next), Shifted(PolynomialOf(crc), 1), count - 1);
      ShiftedTwice(PolynomialOf(crc), 1, count - 1);
      CongruentChain(PolynomialOf(ShiftBits(crc, count)), Shifted(PolynomialOf(next), count - 1),
                     Shifted(PolynomialOf(crc), count));
    }
  }

  lemma ReducedIsCongruent(crc: nat)
    ensures Congruent(PolynomialOf(ShiftBit(crc)), Shifted(PolynomialOf(crc), 1))
  {
    hide PolynomialOf, ShiftBit;
    var product := Shifted(PolynomialOf(crc), 1);
    ShiftBitReduces(crc);
    if 32 in product {
      NotShifted(GENERATOR);
      assert [0][1..] == [];
      PlusNothing(GENERATOR);
      assert Multiple([0]) == GENERATOR;
      CongruentBy(PolynomialOf(ShiftBit(crc)), product, [0]);
    } else {
      CongruentToItself(product);
    }
  }

  /**
   A message as a polynomial, times x^32: the first byte has the highest coefficients, and within a byte the
   lowest bit.
   */
  function Message(bytes: seq<Byte>): Polynomial {
    if bytes == [] then {} else Plus(Shifted(PolynomialOf(bytes[0]), 8 * |bytes|), Message(bytes[1..]))
  }

  lemma {:induction false} AbsorbReduces(crc: nat, bytes: seq<Byte>)
    ensures Congruent(PolynomialOf(Absorb(crc, bytes)), Plus(Shifted(PolynomialOf(crc), 8 * |bytes|), Message(bytes)))
    decreases |bytes|
  {
    hide PolynomialOf, Shifted, Congruent, Plus, AbsorbByte;
    if bytes == [] {
      NotShifted(PolynomialOf(crc));
      PlusNothing(PolynomialOf(crc));
      CongruentToItself(PolynomialOf(crc));
    } else {
      var byte, rest := bytes[0], bytes[1..];
      var next, n := AbsorbByte(crc, byte), 8 * |rest|;
      AbsorbReduces(next, rest);
      AbsorbByteReduces(crc, byte);
      var mixed := Plus(PolynomialOf(crc), PolynomialOf(byte));
      CongruentShifted(PolynomialOf(next), Shifted(mixed, 8), n);
      ShiftedTwice(mixed, 8, n);
      ShiftedPlus(PolynomialOf(crc), PolynomialOf(byte), 8 + n);
      CongruentPlus(Shifted(PolynomialOf(next), n), Shifted(mixed, 8 + n), Message(rest));
      PlusAssociates(Shifted(PolynomialOf(crc), 8 + n), Shifted(PolynomialOf(byte), 8 + n), Message(rest));
      CongruentChain(PolynomialOf(Absorb(crc, bytes)), Plus(Shifted(PolynomialOf(next), n), Message(rest)),
                     Plus(Shifted(mixed, 8 + n), Message(rest)));
    }
  }

  lemma AbsorbByteReduces(crc: nat, byte: Byte)
    ensures Congruent(PolynomialOf(AbsorbByte(crc, byte)), Shifted(Plus(PolynomialOf(crc), PolynomialOf(byte)), 8))
  {
    hide PolynomialOf, Shifted, Congruent, Plus, ShiftBits, Xor;
    PolynomialOfXor(crc, byte);
    ShiftBitsReduce(Xor(crc, byte), 8);
  }

  /** The coefficients of a register of `bits` ones. */
  function Ones(bits: nat): (ones: Polynomial)
    ensures forall e :: e in ones <==> 32 - bits <= e <= 31
  {
    if bits == 0 then {} else Ones(bits - 1) + {32 - bits}
  }

  lemma {:induction false} AllOnes(bits: nat)
    ensures PolynomialOf(Pow2(bits) - 1) == Ones(bits)
    decreases bits
  {
    if bits > 0 {
      AllOnes(bits - 1);
      hide PolynomialOf, Ones;
      assert (Pow2(bits) - 1) / 2 == Pow2(bits - 1) - 1 && Odd(Pow2(bits) - 1);
      forall e: int
        ensures e in PolynomialOf(Pow2(bits) - 1) <==> e in Ones(bits)
      {
        BitBelow(Pow2(bits) - 1, e);
      }
    }
  }

  /** Complementing a register of `bits` bits adds a register of ones. */
  lemma {:induction false} ComplementAdds(word: nat, bits: nat)
    requires word < Pow2(bits)
    ensures PolynomialOf(Pow2(bits) - 1 - word) == Plus(PolynomialOf(word), Ones(bits))
    decreases bits
  {
    if bits > 0 {
      var other := Pow2(bits) - 1 - word;
      HalfComplement(word, bits);
      ComplementAdds(word / 2, bits - 1);
      hide PolynomialOf, Ones, Pow2;
      PolynomialBounds(word / 2);
      forall e: int
        ensures e in PolynomialOf(other) <==> e in Plus(PolynomialOf(word), Ones(bits))
      {
        BitBelow(other, e);
        BitBelow(word, e);
        assert e + 1 in PolynomialOf(other / 2) <==> e + 1 in Plus(PolynomialOf(word / 2), Ones(bits - 1));
      }
    }
  }

  lemma HalfComplement(word: nat, bits: nat)
    requires word < Pow2(bits) && bits > 0
    ensures var other := Pow2(bits) - 1 - word;
      word / 2 < Pow2(bits - 1) && other / 2 == Pow2(bits - 1) - 1 - word / 2 && Odd(other) == !Odd(word)
  {
  }

  /**
   The checksum of a message is the ones' complement of a remainder: of the message times x^32, its first 32
   coefficients complemented, divided by the generator; a remainder has degree below 32.
   */
  lemma ChecksumIsRemainder(bytes: seq<Byte>) returns (remainder: Polynomial)
    ensures PolynomialOf(Checksum(bytes)) == Plus(remainder, Ones(32))
    ensures forall e :: e in remainder ==> 0 <= e <= 31
    ensures Congruent(remainder, Plus(Shifted(Ones(32), 8 * |bytes|), Message(bytes)))
  {
    hide PolynomialOf, Congruent, Plus, Shifted, Absorb, Ones;
    Pow2Of32();
    AllOnes(32);
    AbsorbFits(WORD_LIMIT - 1, bytes);
    var register := Absorb(WORD_LIMIT - 1, bytes);
    remainder := PolynomialOf(register);
    PolynomialOfWord(register, 32);
    ComplementAdds(register, 32);
    AbsorbReduces(WORD_LIMIT - 1, bytes);
  }
}
