/**
 The check value of CRC-16/DNP (tools/dnp3-dpi/src/crc.rs): the one input for which the source states the checksum. It
 fixes the polynomial, the order of bits and octets, the initial value and the final complement.
 */
module CrcCheckValue {

  import opened Arithmetic
  import opened Octets
  import opened Crc

  /** The register, bit by bit. */
  datatype Cells = Cells(
    b0: bool, b1: bool, b2: bool, b3: bool, b4: bool, b5: bool, b6: bool, b7: bool, b8: bool, b9: bool,
    b10: bool, b11: bool, b12: bool, b13: bool, b14: bool, b15: bool)

  predicate Holds(w: word, r: Cells) {
    && w[0] == r.b0 && w[1] == r.b1 && w[2] == r.b2 && w[3] == r.b3 && w[4] == r.b4 && w[5] == r.b5
    && w[6] == r.b6 && w[7] == r.b7 && w[8] == r.b8 && w[9] == r.b9 && w[10] == r.b10 && w[11] == r.b11
    && w[12] == r.b12 && w[13] == r.b13 && w[14] == r.b14 && w[15] == r.b15
  }

  /** The cells moved down by one. */
  function Moved(r: Cells): Cells {
    Cells(r.b1, r.b2, r.b3, r.b4, r.b5, r.b6, r.b7, r.b8, r.b9, r.b10, r.b11, r.b12, r.b13, r.b14, r.b15, false)
  }

  function Flipped(r: Cells, p: Cells): Cells {
    Cells(r.b0 != p.b0, r.b1 != p.b1, r.b2 != p.b2, r.b3 != p.b3, r.b4 != p.b4, r.b5 != p.b5, r.b6 != p.b6,
          r.b7 != p.b7, r.b8 != p.b8, r.b9 != p.b9, r.b10 != p.b10, r.b11 != p.b11, r.b12 != p.b12,
          r.b13 != p.b13, r.b14 != p.b14, r.b15 != p.b15)
  }

  /** The cells of the polynomial. */
  const FEEDBACK: Cells :=
    Cells(false, false, true, true, true, true, false, true, false, true, true, false, false, true, false, true)

  /** The register is fed a bit. */
  function Feed(r: Cells, bit: bool): Cells {
    if r.b0 != bit then Flipped(Moved(r), FEEDBACK) else Moved(r)
  }

  lemma BinaryHalf(n: nat, width: nat)
    requires width > 0
    ensures Binary(n, width) == [n % 2 == 1] + Binary(n / 2, width - 1)
  {
  }

  /** Four digits at a time. */
  lemma BinaryDigits(n: nat, width: nat)
    requires width >= 4
    ensures Binary(n, width)
         == [n % 2 == 1, n / 2 % 2 == 1, n / 4 % 2 == 1, n / 8 % 2 == 1] + Binary(n / 0x10, width - 4)
  {
    hide Binary;
    BinaryHalf(n, width);
    BinaryHalf(n / 2, width - 1);
    BinaryHalf(n / 4, width - 2);
    BinaryHalf(n / 8, width - 3);
  }

  lemma PolynomialCells()
    ensures Holds(Polynomial(), FEEDBACK)
  {
    hide Binary, Polynomial;
    PolynomialIs(0xA6BC);
    BinaryDigits(0xA6BC, 16);
    BinaryDigits(0xA6B, 12);
    BinaryDigits(0xA6, 8);
    BinaryDigits(0xA, 4);
  }

  lemma ShiftAt(w: word, i: nat)
    requires i < 16
    ensures Shift(w)[i] == if i < 15 then w[i + 1] else false
  {
  }

  lemma ShiftHolds(w: word, r: Cells)
    requires Holds(w, r)
    ensures Holds(Shift(w), Moved(r))
  {
    hide Shift;
    ShiftAt(w, 0);
    ShiftAt(w, 1);
    ShiftAt(w, 2);
    ShiftAt(w, 3);
    ShiftAt(w, 4);
    ShiftAt(w, 5);
    ShiftAt(w, 6);
    ShiftAt(w, 7);
    ShiftAt(w, 8);
    ShiftAt(w, 9);
    ShiftAt(w, 10);
    ShiftAt(w, 11);
    ShiftAt(w, 12);
    ShiftAt(w, 13);
    ShiftAt(w, 14);
    ShiftAt(w, 15);
  }

  lemma XorHolds(u: word, v: word, r: Cells, p: Cells)
    requires Holds(u, r) && Holds(v, p)
    ensures Holds(Xor(u, v), Flipped(r, p))
  {
    hide Xor;
    XorAt(u, v, 0);
    XorAt(u, v, 1);
    XorAt(u, v, 2);
    XorAt(u, v, 3);
    XorAt(u, v, 4);
    XorAt(u, v, 5);
    XorAt(u, v, 6);
    XorAt(u, v, 7);
    XorAt(u, v, 8);
    XorAt(u, v, 9);
    XorAt(u, v, 10);
    XorAt(u, v, 11);
    XorAt(u, v, 12);
    XorAt(u, v, 13);
    XorAt(u, v, 14);
    XorAt(u, v, 15);
  }

  lemma XorAt(u: word, v: word, i: nat)
    requires i < 16
    ensures Xor(u, v)[i] <==> u[i] != v[i]
  {
  }

  lemma FeedIs(w: word, r: Cells, bit: bool)
    requires Holds(w, r)
    ensures Holds(BitStep(w, bit), Feed(r, bit))
  {
    hide Polynomial, Shift, Xor, Moved, Flipped, FEEDBACK;
    PolynomialCells();
    ShiftHolds(w, r);
    XorHolds(Shift(w), Polynomial(), Moved(r), FEEDBACK);
  }

  /** The register is fed the octet of a decimal digit in ASCII, whose high bits are always the same. */
  function FeedDigit(r: Cells, c0: bool, c1: bool, c2: bool, c3: bool): Cells {
    Feed(Feed(Feed(Feed(Feed(Feed(Feed(Feed(r, c0), c1), c2), c3), true), true), false), false)
  }

  lemma {:induction false} FeedMany(bits: seq<bool>, w: word, states: seq<Cells>)
    requires |states| == |bits| + 1 && Holds(w, states[0])
    requires forall i :: 0 <= i < |bits| ==> states[i + 1] == Feed(states[i], bits[i])
    ensures Holds(BitRegister(bits, w), states[|bits|])
    decreases |bits|
  {
    hide Feed, Holds, BitStep;
    if bits != [] {
      FeedIs(w, states[0], bits[0]);
      FeedMany(bits[1..], BitStep(w, bits[0]), states[1..]);
    }
  }

  lemma DigitBits(d: nat)
    requires d < 10
    ensures OctetBits(0x30 + d) == [d % 2 == 1, d / 2 % 2 == 1, d / 4 % 2 == 1, d / 8 % 2 == 1, true, true, false, false]
  {
    hide Binary;
    BinaryDigits(0x30 + d, 8);
    BinaryDigits(3, 4);
  }

  lemma DigitFed(w: word, r: Cells, d: nat)
    requires d < 10 && Holds(w, r)
    ensures Holds(BitRegister(OctetBits(0x30 + d), w),
                  FeedDigit(r, d % 2 == 1, d / 2 % 2 == 1, d / 4 % 2 == 1, d / 8 % 2 == 1))
  {
    hide Feed, Holds, OctetBits, BitRegister;
    DigitBits(d);
    var c0, c1, c2, c3 := d % 2 == 1, d / 2 % 2 == 1, d / 4 % 2 == 1, d / 8 % 2 == 1;
    var r1 := Feed(r, c0);
    var r2 := Feed(r1, c1);
    var r3 := Feed(r2, c2);
    var r4 := Feed(r3, c3);
    var r5 := Feed(r4, true);
    var r6 := Feed(r5, true);
    var r7 := Feed(r6, false);
    FeedMany([c0, c1, c2, c3, true, true, false, false], w, [r, r1, r2, r3, r4, r5, r6, r7, Feed(r7, false)]);
  }

  /** 0x0 */
  function State0(): Cells {
    Cells(false, false, false, false, false, false, false, false, false, false, false, false, false, false,
          false, false)
  }

  /** 0xAD9A */
  function State1(): Cells {
    Cells(false, true, false, true, true, false, false, true, true, false, true, true, false, true, false,
          true)
  }

  /** 0x7037 */
  function State2(): Cells {
    Cells(true, true, true, false, true, true, false, false, false, false, false, false, true, true, true,
          false)
  }

  /** 0xD908 */
  function State3(): Cells {
    Cells(false, false, false, true, false, false, false, false, true, false, false, true, true, false, true,
          true)
  }

  /** 0xBDEC */
  function State4(): Cells {
    Cells(false, false, true, true, false, true, true, true, true, false, true, true, true, true, false, true)
  }

  /** 0x8EE3 */
  function State5(): Cells {
    Cells(true, true, false, false, false, true, true, true, false, true, true, true, false, false, false,
          true)
  }

  /** 0xA821 */
  function State6(): Cells {
    Cells(true, false, false, false, false, true, false, false, false, false, false, true, false, true, false,
          true)
  }

  /** 0x707 */
  function State7(): Cells {
    Cells(true, true, true, false, false, false, false, false, true, true, true, false, false, false, false,
          false)
  }

  /** 0xE7D0 */
  function State8(): Cells {
    Cells(false, false, false, false, true, false, true, true, true, true, true, false, false, true, true,
          true)
  }

  /** 0x157D */
  function State9(): Cells {
    Cells(true, false, true, true, true, true, true, false, true, false, true, false, true, false, false,
          false)
  }

  lemma Digit1()
    ensures FeedDigit(State0(), true, false, false, false) == State1()
  {
  }

  lemma Digit2()
    ensures FeedDigit(State1(), false, true, false, false) == State2()
  {
  }

  lemma Digit3()
    ensures FeedDigit(State2(), true, true, false, false) == State3()
  {
  }

  lemma Digit4()
    ensures FeedDigit(State3(), false, false, true, false) == State4()
  {
  }

  lemma Digit5()
    ensures FeedDigit(State4(), true, false, true, false) == State5()
  {
  }

  lemma Digit6()
    ensures FeedDigit(State5(), false, true, true, false) == State6()
  {
  }

  lemma Digit7()
    ensures FeedDigit(State6(), true, true, true, false) == State7()
  {
  }

  lemma Digit8()
    ensures FeedDigit(State7(), false, false, false, true) == State8()
  {
  }

  lemma Digit9()
    ensures FeedDigit(State8(), true, false, false, true) == State9()
  {
  }

  const DIGITS: seq<octet> := [0x31, 0x32, 0x33, 0x34, 0x35, 0x36, 0x37, 0x38, 0x39]

  lemma NextDigit(d: nat, from: Cells, to: Cells)
    requires 1 <= d <= 9 && Holds(BitRegister(Bits(DIGITS[..d - 1]), ZERO), from)
    requires FeedDigit(from, d % 2 == 1, d / 2 % 2 == 1, d / 4 % 2 == 1, d / 8 % 2 == 1) == to
    ensures Holds(BitRegister(Bits(DIGITS[..d]), ZERO), to)
  {
    hide BitRegister, OctetBits, Holds, FeedDigit, Bits;
    assert DIGITS[d - 1] == 0x30 + d && DIGITS[..d] == DIGITS[..d - 1] + [DIGITS[d - 1]];
    BitsConcat(DIGITS[..d - 1], [DIGITS[d - 1]]);
    OneOctet(DIGITS[d - 1]);
    BitRegisterConcat(Bits(DIGITS[..d - 1]), OctetBits(0x30 + d), ZERO);
    DigitFed(BitRegister(Bits(DIGITS[..d - 1]), ZERO), from, d);
  }

  lemma OneOctet(b: octet)
    ensures Bits([b]) == OctetBits(b)
  {
    assert [b][1..] == [] && OctetBits(b) + [] == OctetBits(b);
  }

  lemma NoOctets()
    ensures Holds(BitRegister(Bits([]), ZERO), State0())
  {
  }

  /** The checksum of the ASCII digits 1 to 9 is 0xEA82. */
  lemma CheckValue()
    ensures DIGITS == [0x31, 0x32, 0x33, 0x34, 0x35, 0x36, 0x37, 0x38, 0x39]
    ensures Number(Crc16(DIGITS)) == 0xEA82
  {
    hide BitRegister, Register, OctetBits, Holds, FeedDigit, Bits, Number, Binary;
    hide State0, State1, State2, State3, State4, State5, State6, State7, State8, State9;
    NoOctets();
    assert DIGITS[..0] == [] && DIGITS[..9] == DIGITS;
    Digit1();
    NextDigit(1, State0(), State1());
    Digit2();
    NextDigit(2, State1(), State2());
    Digit3();
    NextDigit(3, State2(), State3());
    Digit4();
    NextDigit(4, State3(), State4());
    Digit5();
    NextDigit(5, State4(), State5());
    Digit6();
    NextDigit(6, State5(), State6());
    Digit7();
    NextDigit(7, State6(), State7());
    Digit8();
    NextDigit(8, State7(), State8());
    Digit9();
    NextDigit(9, State8(), State9());
    RegisterIsBitRegister(DIGITS, ZERO);
    LastState(Register(DIGITS, ZERO));
  }

  lemma LastState(w: word)
    requires Holds(w, State9())
    ensures Number(Negated(w)) == 0xEA82
  {
    hide Binary, Number;
    WordSize();
    NumberOfBinary(0xEA82, 16);
    BinaryDigits(0xEA82, 16);
    BinaryDigits(0xEA8, 12);
    BinaryDigits(0xEA, 8);
    BinaryDigits(0xE, 4);
    assert forall i :: 0 <= i < 16 ==> Binary(0xEA82, 16)[i] == Negated(w)[i];
    assert Binary(0xEA82, 16) == Negated(w);
  }
}
