/**
 CRC-16/DNP (tools/dnp3-dpi/src/crc.rs and `crc_dnp` in tools/make_captures.py), and the errors it detects.

 `Compute` and `ComputeUnbounded` are the two implementations, on machine words; `Crc16` is the function both are proved
 against, on the bits of the word. The main results: a block that carries its CRC stops doing so after any change within
 16 consecutive bits (`BurstDetected`) and after any change of an odd number of bits (`OddDetected`).
 */
module Crc {

  import opened Arithmetic
  import opened Octets

  // ---------------------------------------------------------------------------------------------------------
  // The register
  // ---------------------------------------------------------------------------------------------------------

  /** The reflected polynomial. */
  function Polynomial(): word {
    Binary(0xA6BC, 16)
  }

  lemma PolynomialTop()
    ensures Polynomial()[15]
  {
    hide Polynomial;
    WordSize();
    TopBit(0xA6BC, 16);
    PolynomialIs(0xA6BC);
  }

  lemma PolynomialIs(n: nat)
    requires n == 0xA6BC
    ensures Polynomial() == Binary(n, 16)
  {
  }

  function Xor(a: seq<bool>, b: seq<bool>): (r: seq<bool>)
    requires |a| == |b|
    ensures |r| == |a| && forall i :: 0 <= i < |a| ==> r[i] == (a[i] != b[i])
  {
    seq(|a|, i requires 0 <= i < |a| => a[i] != b[i])
  }

  function Shift(r: word): word {
    r[1..] + [false]
  }

  /** One step of the shift register: out with the low bit, in with the polynomial if it was set. */
  function Step(r: word): word {
    if r[0] then Xor(Shift(r), Polynomial()) else Shift(r)
  }

  function Steps(n: nat, r: word): word {
    if n == 0 then r else Steps(n - 1, Step(r))
  }

  const ZERO: word := Zeros(16)

  function Widen(b: octet): word {
    OctetBits(b) + Zeros(8)
  }

  function ByteStep(r: word, b: octet): word {
    Steps(8, Xor(r, Widen(b)))
  }

  /** The register after `data`, started from `r`. */
  function Register(data: seq<octet>, r: word): word {
    if data == [] then r else Register(data[1..], ByteStep(r, data[0]))
  }

  function Negated(r: seq<bool>): (c: seq<bool>)
    ensures |c| == |r| && forall i :: 0 <= i < |r| ==> c[i] == !r[i]
  {
    seq(|r|, i requires 0 <= i < |r| => !r[i])
  }

  /** The checksum: start at zero, complement at the end. */
  function Crc16(data: seq<octet>): word {
    Negated(Register(data, ZERO))
  }

  // ---------------------------------------------------------------------------------------------------------
  // The two implementations, on machine words
  // ---------------------------------------------------------------------------------------------------------

  /** Bitwise exclusive or of numbers, as Python's `^` on non-negative integers of any size. */
  function XorNumbers(a: nat, b: nat): (n: nat) {
    if a == 0 && b == 0 then 0 else (if a % 2 != b % 2 then 1 else 0) + 2 * XorNumbers(a / 2, b / 2)
  }

  lemma {:induction false} XorNumbersBound(a: nat, b: nat, width: nat)
    requires a < Pow2(width) && b < Pow2(width)
    ensures XorNumbers(a, b) < Pow2(width)
  {
    if a != 0 || b != 0 {
      XorNumbersBound(a / 2, b / 2, width - 1);
    }
  }

  lemma {:induction false} XorNumbersBits(a: nat, b: nat, width: nat)
    ensures Binary(XorNumbers(a, b), width) == Xor(Binary(a, width), Binary(b, width))
  {
    if width > 0 {
      XorNumbersBits(a / 2, b / 2, width - 1);
      assert XorNumbers(a, b) / 2 == XorNumbers(a / 2, b / 2);
    }
  }

  lemma WordSize()
    ensures Pow2(16) == 0x1_0000
  {
    assert Pow2(8) == 0x100;
  }

  lemma XorOfNumbers(a: nat, b: nat)
    requires a < 0x1_0000 && b < 0x1_0000
    ensures XorNumbers(a, b) < 0x1_0000
    ensures Binary(XorNumbers(a, b), 16) == Xor(Binary(a, 16), Binary(b, 16))
  {
    WordSize();
    XorNumbersBound(a, b, 16);
    XorNumbersBits(a, b, 16);
  }

  lemma ShiftOfNumber(n: nat)
    requires n < 0x1_0000
    ensures Binary(n / 2, 16) == Shift(Binary(n, 16))
  {
    WordSize();
    BinaryPadded(n / 2, 15, 1);
    assert Zeros(1) == [false];
  }

  /** A step on the number is a step on its bits. */
  lemma StepOfNumber(n: nat)
    requires n < 0x1_0000
    ensures var next := if n % 2 == 1 then XorNumbers(n / 2, 0xA6BC) else n / 2;
            next < 0x1_0000 && Binary(next, 16) == Step(Binary(n, 16))
  {
    ShiftOfNumber(n);
    hide Polynomial;
    PolynomialIs(0xA6BC);
    XorOfNumbers(n / 2, 0xA6BC);
  }

  lemma WidenedOctet(b: octet)
    ensures Binary(b, 16) == Widen(b)
  {
    ByteSize();
    BinaryPadded(b, 8, 8);
  }

  lemma ComplementOfNumber(n: nat)
    requires n < 0x1_0000
    ensures Binary(0xFFFF - n, 16) == Negated(Binary(n, 16))
  {
    WordSize();
    ComplementBits(n, 16);
  }

  lemma {:induction false} ComplementBits(n: nat, width: nat)
    requires n < Pow2(width)
    ensures Binary(Pow2(width) - 1 - n, width) == Negated(Binary(n, width))
  {
    if width > 0 {
      ComplementBits(n / 2, width - 1);
      assert (Pow2(width) - 1 - n) / 2 == Pow2(width - 1) - 1 - n / 2;
    }
  }

  type u16 = n: int | 0 <= n < 0x1_0000

  /** The Rust loop, on a 16-bit register. */
  method Compute(data: seq<octet>) returns (crc: u16)
    ensures Binary(crc, 16) == Crc16(data)
  {
    hide Step, Xor, Binary, XorNumbers;
    crc := 0;
    BinaryOfZero(16);
    for i := 0 to |data|
      invariant Register(data[i..], Binary(crc, 16)) == Register(data, ZERO)
    {
      ghost var before := Binary(crc, 16);
      XorOfNumbers(crc, data[i]);
      WidenedOctet(data[i]);
      crc := XorNumbers(crc, data[i]);
      ghost var mixed := Binary(crc, 16);
      for j := 0 to 8
        invariant Steps(8 - j, Binary(crc, 16)) == Steps(8, mixed)
      {
        StepOfNumber(crc);
        if crc % 2 != 0 {
          crc := XorNumbers(crc / 2, 0xA6BC);
        } else {
          crc := crc / 2;
        }
      }
      assert Binary(crc, 16) == ByteStep(before, data[i]);
      assert data[i..][1..] == data[i + 1..];
    }
    ComplementOfNumber(crc);
    crc := 0xFFFF - crc;
  }

  /**
   The Python loop, on an integer of no fixed width: it never leaves 16 bits, so masking the complement (which is
   negative) gives the same checksum.
   */
  method ComputeUnbounded(data: seq<octet>) returns (crc: int)
    ensures 0 <= crc < 0x1_0000 && Binary(crc, 16) == Crc16(data)
  {
    hide Step, Xor, Binary, XorNumbers;
    crc := 0;
    BinaryOfZero(16);
    for i := 0 to |data|
      invariant 0 <= crc < 0x1_0000
      invariant Register(data[i..], Binary(crc, 16)) == Register(data, ZERO)
    {
      ghost var before := Binary(crc, 16);
      XorOfNumbers(crc, data[i]);
      WidenedOctet(data[i]);
      crc := XorNumbers(crc, data[i]);
      ghost var mixed := Binary(crc, 16);
      for j := 0 to 8
        invariant 0 <= crc < 0x1_0000
        invariant Steps(8 - j, Binary(crc, 16)) == Steps(8, mixed)
      {
        StepOfNumber(crc);
        crc := if crc % 2 == 1 then XorNumbers(crc / 2, 0xA6BC) else crc / 2;
      }
      assert Binary(crc, 16) == ByteStep(before, data[i]);
      assert data[i..][1..] == data[i + 1..];
    }
    ComplementOfNumber(crc);
    crc := (-crc - 1) % 0x1_0000;
  }

  // ---------------------------------------------------------------------------------------------------------
  // The step is a bijection
  // ---------------------------------------------------------------------------------------------------------

  lemma StepInjective(a: word, b: word)
    requires Step(a) == Step(b)
    ensures a == b
  {
    hide Polynomial;
    PolynomialTop();
    assert a[0] == Step(a)[15] == Step(b)[15] == b[0];
    XorInjective(Shift(a), Shift(b), Polynomial());
    assert a == [a[0]] + Shift(a)[..15];
    assert b == [b[0]] + Shift(b)[..15];
  }

  lemma XorInjective(a: word, b: word, c: word)
    ensures Xor(a, c) == Xor(b, c) ==> a == b
  {
    if Xor(a, c) == Xor(b, c) {
      assert a == Xor(Xor(a, c), c) && b == Xor(Xor(b, c), c);
    }
  }

  lemma {:induction false} StepsInjective(n: nat, a: word, b: word)
    requires Steps(n, a) == Steps(n, b)
    ensures a == b
  {
    if n > 0 {
      StepsInjective(n - 1, Step(a), Step(b));
      StepInjective(a, b);
    }
  }

  // ---------------------------------------------------------------------------------------------------------
  // The register fed one bit at a time
  // ---------------------------------------------------------------------------------------------------------

  function BitStep(r: word, bit: bool): word {
    if r[0] != bit then Xor(Shift(r), Polynomial()) else Shift(r)
  }

  function BitRegister(bits: seq<bool>, r: word): word {
    if bits == [] then r else BitRegister(bits[1..], BitStep(r, bits[0]))
  }

  lemma {:induction false} BitRegisterConcat(a: seq<bool>, b: seq<bool>, r: word)
    ensures BitRegister(a + b, r) == BitRegister(b, BitRegister(a, r))
  {
    if a == [] {
      assert a + b == b;
    } else {
      assert (a + b)[1..] == a[1..] + b;
      BitRegisterConcat(a[1..], b, BitStep(r, a[0]));
    }
  }

  lemma {:induction false} BitRegisterInjective(bits: seq<bool>, a: word, b: word)
    requires BitRegister(bits, a) == BitRegister(bits, b)
    ensures a == b
  {
    if bits != [] {
      BitRegisterInjective(bits[1..], BitStep(a, bits[0]), BitStep(b, bits[0]));
      StepBack(BitStep(a, bits[0]), BitStep(b, bits[0]), a, b, bits[0], bits[0], 0);
      assert a[0] == b[0];
      assert a == b;
    }
  }

  // Mixing a word in and stepping is feeding it its first bit and shifting the rest of the word along.
  lemma Mix(r: word, w: word)
    ensures Step(Xor(r, w)) == Xor(BitStep(r, w[0]), Shift(w))
  {
    hide Polynomial;
    assert Shift(Xor(r, w)) == Xor(Shift(r), Shift(w));
    assert Xor(Xor(Shift(r), Shift(w)), Polynomial()) == Xor(Xor(Shift(r), Polynomial()), Shift(w));
  }

  /** Mixing a word in at once and then stepping is feeding its bits one by one. */
  lemma {:induction false} WordAtOnce(r: word, w: word, k: nat)
    requires k <= 16
    ensures Steps(k, Xor(r, w)) == Xor(BitRegister(w[..k], r), w[k..] + Zeros(k))
    decreases k
  {
    hide Step;
    if k == 0 {
      assert w[0..] + Zeros(0) == w;
    } else {
      Mix(r, w);
      WordAtOnce(BitStep(r, w[0]), Shift(w), k - 1);
      assert w[..k][1..] == Shift(w)[..k - 1];
      assert Shift(w)[k - 1..] + Zeros(k - 1) == w[k..] + Zeros(k);
    }
  }

  lemma XorZeros(r: word)
    ensures Xor(r, Zeros(16)) == r
  {
  }

  /** The octet-wise register is the bit-wise one. */
  lemma {:induction false} RegisterIsBitRegister(data: seq<octet>, r: word)
    ensures Register(data, r) == BitRegister(Bits(data), r)
  {
    if data != [] {
      hide Step, BitStep;
      var w := Widen(data[0]);
      WordAtOnce(r, w, 8);
      assert w[..8] == OctetBits(data[0]) && w[8..] + Zeros(8) == Zeros(16);
      XorZeros(BitRegister(w[..8], r));
      RegisterIsBitRegister(data[1..], ByteStep(r, data[0]));
      BitRegisterConcat(OctetBits(data[0]), Bits(data[1..]), r);
    }
  }

  // ---------------------------------------------------------------------------------------------------------
  // A block and its checksum
  // ---------------------------------------------------------------------------------------------------------

  /** `block` ends in the checksum, low octet first, of what precedes it. */
  predicate Checks(block: seq<octet>) {
    |block| >= 2 && Crc16(block[..|block| - 2]) == Word(block[|block| - 2], block[|block| - 1])
  }

  function Residue(): word {
    Steps(16, Negated(ZERO))
  }

  /** Feeding the two octets of a word is mixing it in and stepping sixteen times. */
  lemma WordRegister(lo: octet, hi: octet, r: word)
    ensures BitRegister(Bits([lo, hi]), r) == Steps(16, Xor(r, Word(lo, hi)))
  {
    hide Step, BitStep, OctetBits;
    var w := Word(lo, hi);
    assert Bits([lo, hi]) == OctetBits(lo) + Bits([hi]);
    assert Bits([hi]) == OctetBits(hi) + Bits([]);
    assert w[..16] == Bits([lo, hi]);
    WordAtOnce(r, w, 16);
    assert w[16..] + Zeros(16) == Zeros(16);
    XorZeros(BitRegister(w[..16], r));
  }

  lemma XorAllOnes(r: word, w: word)
    ensures Negated(r) == w <==> Xor(r, w) == Negated(ZERO)
  {
    if Xor(r, w) == Negated(ZERO) {
      assert forall i :: 0 <= i < 16 ==> Xor(r, w)[i] == Negated(ZERO)[i];
    }
  }

  lemma MixedResidue(r: word, w: word)
    ensures Steps(16, Xor(r, w)) == Residue() <==> Negated(r) == w
  {
    hide Step, Steps;
    XorAllOnes(r, w);
    if Steps(16, Xor(r, w)) == Steps(16, Negated(ZERO)) {
      StepsInjective(16, Xor(r, w), Negated(ZERO));
    }
  }

  lemma FedWithChecksum(data: seq<octet>, lo: octet, hi: octet)
    ensures BitRegister(Bits(data + [lo, hi]), ZERO) == Steps(16, Xor(Register(data, ZERO), Word(lo, hi)))
  {
    hide Step, BitStep, BitRegister, OctetBits, Steps, Register, Word, Bits;
    RegisterIsBitRegister(data, ZERO);
    BitsConcat(data, [lo, hi]);
    BitRegisterConcat(Bits(data), Bits([lo, hi]), ZERO);
    WordRegister(lo, hi, Register(data, ZERO));
  }

  /** Feeding a block its own checksum leaves the same residue whatever the block, and nothing else does. */
  lemma ChecksIffResidue(block: seq<octet>)
    requires |block| >= 2
    ensures Checks(block) <==> BitRegister(Bits(block), ZERO) == Residue()
  {
    hide BitRegister, Steps, Register, Word, Bits, Residue;
    var n := |block| - 2;
    assert block == block[..n] + [block[n], block[n + 1]];
    FedWithChecksum(block[..n], block[n], block[n + 1]);
    MixedResidue(Register(block[..n], ZERO), Word(block[n], block[n + 1]));
  }

  // ---------------------------------------------------------------------------------------------------------
  // Burst errors
  // ---------------------------------------------------------------------------------------------------------

  /** The two words are alike from bit `k` up. */
  ghost predicate AgreeFrom(a: word, b: word, k: nat) {
    forall i :: k <= i < 16 ==> a[i] == b[i]
  }

  // The top bit of a step tells which way it went, so agreement above `k` before the last bit is known.
  lemma StepBack(a': word, b': word, a: word, b: word, u: bool, v: bool, k: nat)
    requires k <= 15 && a' == BitStep(a, u) && b' == BitStep(b, v) && AgreeFrom(a', b', k)
    ensures (a[0] != u) == (b[0] != v)
    ensures AgreeFrom(a, b, k + 1)
  {
    hide Polynomial;
    PolynomialTop();
    assert a'[15] == (a[0] != u) && b'[15] == (b[0] != v);
    forall i | k + 1 <= i < 16
      ensures a[i] == b[i]
    {
      assert a'[i - 1] == b'[i - 1];
    }
  }

  /** Two runs that end alike were alike above as many low bits as they were fed. */
  lemma {:induction false} RunBack(u: seq<bool>, v: seq<bool>, a: word, b: word)
    requires |u| == |v| <= 16 && BitRegister(u, a) == BitRegister(v, b)
    ensures AgreeFrom(a, b, |u|)
  {
    if u != [] {
      RunBack(u[1..], v[1..], BitStep(a, u[0]), BitStep(b, v[0]));
      StepBack(BitStep(a, u[0]), BitStep(b, v[0]), a, b, u[0], v[0], |u| - 1);
    }
  }

  /** From one register, two different inputs of at most 16 bits never lead to the same one. */
  lemma {:induction false} WindowInjective(u: seq<bool>, v: seq<bool>, r: word)
    requires |u| == |v| <= 16 && BitRegister(u, r) == BitRegister(v, r)
    ensures u == v
  {
    if u != [] {
      var a, b := BitStep(r, u[0]), BitStep(r, v[0]);
      RunBack(u[1..], v[1..], a, b);
      StepBack(a, b, r, r, u[0], v[0], |u| - 1);
      WindowInjective(u[1..], v[1..], a);
    }
  }

  /** A window of at most 16 bits is determined by the register before and after, whatever surrounds it. */
  lemma SplicedWindow(before: seq<bool>, u: seq<bool>, v: seq<bool>, after: seq<bool>)
    requires |u| == |v| <= 16
    requires BitRegister(before + (u + after), ZERO) == BitRegister(before + (v + after), ZERO)
    ensures u == v
  {
    var r := BitRegister(before, ZERO);
    BitRegisterConcat(before, u + after, ZERO);
    BitRegisterConcat(before, v + after, ZERO);
    BitRegisterConcat(u, after, r);
    BitRegisterConcat(v, after, r);
    BitRegisterInjective(after, BitRegister(u, r), BitRegister(v, r));
    WindowInjective(u, v, r);
  }

  /** The two octet strings are alike except perhaps in the 16 consecutive bits from bit `i` on. */
  ghost predicate WithinBurst(x: seq<octet>, y: seq<octet>, i: int) {
    && |x| == |y|
    && forall k :: 0 <= k < 8 * |x| && !(i <= k < i + 16) ==> Bits(x)[k] == Bits(y)[k]
  }

  /**
   Any change confined to 16 consecutive bits of a block and its checksum, wherever it starts, is detected: the
   changed block no longer checks.
   */
  lemma BurstDetected(x: seq<octet>, y: seq<octet>, i: int)
    requires Checks(x) && x != y && WithinBurst(x, y, i)
    ensures !Checks(y)
  {
    if Checks(y) {
      ChecksIffResidue(x);
      ChecksIffResidue(y);
      hide Bits, Checks, Residue, BitRegister;
      var s, t := Bits(x), Bits(y);
      var from := Clamp(i, |s|);
      var to := Clamp(i + 16, |s|);
      Spliced(s, s, from, to);
      Spliced(s, t, from, to);
      SplicedWindow(s[..from], s[from..to], t[from..to], s[to..]);
      BitsInjective(x, y);
    }
  }

  lemma Spliced(s: seq<bool>, t: seq<bool>, from: nat, to: nat)
    requires |s| == |t| && from <= to <= |s|
    requires forall k :: 0 <= k < |s| && !(from <= k < to) ==> s[k] == t[k]
    ensures t == s[..from] + (t[from..to] + s[to..])
  {
  }

  function Clamp(i: int, n: nat): nat {
    if i < 0 then 0 else if i <= n then i else n
  }

  /** A burst seen through a slice is a burst. */
  lemma BurstSlice(x: seq<octet>, y: seq<octet>, i: int, from: nat, to: nat)
    requires WithinBurst(x, y, i) && from <= to <= |x|
    ensures WithinBurst(x[from..to], y[from..to], i - 8 * from)
  {
    hide Bits;
    BitsSlice(x, from, to);
    BitsSlice(y, from, to);
    forall k | 0 <= k < 8 * (to - from) && !(i - 8 * from <= k < i - 8 * from + 16)
      ensures Bits(x[from..to])[k] == Bits(y[from..to])[k]
    {
      assert Bits(x)[8 * from + k] == Bits(y)[8 * from + k];
    }
  }

  /** A change of one octet, or of two adjacent ones, is a burst. */
  lemma AdjacentOctetsBurst(x: seq<octet>, y: seq<octet>, j: nat)
    requires |x| == |y| && forall k :: 0 <= k < |x| && k != j && k != j + 1 ==> x[k] == y[k]
    ensures WithinBurst(x, y, 8 * j)
  {
    hide Bits;
    forall k | 0 <= k < 8 * |x| && !(8 * j <= k < 8 * j + 16)
      ensures Bits(x)[k] == Bits(y)[k]
    {
      var o := k / 8;
      BitsSlice(x, o, o + 1);
      BitsSlice(y, o, o + 1);
      assert x[o..o + 1] == y[o..o + 1];
      assert Bits(x)[8 * o..8 * (o + 1)][k - 8 * o] == Bits(y)[8 * o..8 * (o + 1)][k - 8 * o];
    }
  }

  // ---------------------------------------------------------------------------------------------------------
  // Odd errors
  // ---------------------------------------------------------------------------------------------------------

  /** How many bits are set. */
  function Ones(s: seq<bool>): nat {
    if s == [] then 0 else (if s[0] then 1 else 0) + Ones(s[1..])
  }

  /** Whether an odd number of bits is set. */
  predicate Odd(s: seq<bool>) {
    s != [] && s[0] != Odd(s[1..])
  }

  lemma {:induction false} OddOnes(s: seq<bool>)
    ensures Odd(s) <==> Ones(s) % 2 == 1
  {
    if s != [] {
      OddOnes(s[1..]);
    }
  }

  lemma {:induction false} OddConcat(a: seq<bool>, b: seq<bool>)
    ensures Odd(a + b) <==> Odd(a) != Odd(b)
  {
    if a == [] {
      assert a + b == b;
    } else {
      assert (a + b)[1..] == a[1..] + b;
      OddConcat(a[1..], b);
    }
  }

  lemma {:induction false} OddXor(a: seq<bool>, b: seq<bool>)
    requires |a| == |b|
    ensures Odd(Xor(a, b)) <==> Odd(a) != Odd(b)
  {
    if a != [] {
      assert Xor(a, b)[1..] == Xor(a[1..], b[1..]);
      OddXor(a[1..], b[1..]);
    }
  }

  lemma {:induction false} OddZeros(k: nat)
    ensures !Odd(Zeros(k))
  {
    if k > 0 {
      assert Zeros(k)[1..] == Zeros(k - 1);
      OddZeros(k - 1);
    }
  }

  lemma {:induction false} OddNegated(s: seq<bool>)
    ensures Odd(Negated(s)) <==> Odd(s) != (|s| % 2 == 1)
  {
    if s != [] {
      assert Negated(s)[1..] == Negated(s[1..]);
      OddNegated(s[1..]);
    }
  }

  lemma OddShift(r: word)
    ensures Odd(Shift(r)) <==> Odd(r) != r[0]
  {
    OddConcat(r[1..], [false]);
  }

  /** Half the number, and one bit less. */
  lemma OddHalf(n: nat, width: nat)
    requires width > 0
    ensures Odd(Binary(n, width)) <==> (n % 2 == 1) != Odd(Binary(n / 2, width - 1))
  {
    assert Binary(n, width)[1..] == Binary(n / 2, width - 1);
  }

  /** The polynomial has nine terms below the leading one, ten in all: it is divisible by x + 1. */
  lemma PolynomialOdd()
    ensures Odd(Polynomial())
  {
    hide Binary, Odd, Polynomial;
    PolynomialIs(0xA6BC);
    OddHalf(0xA6BC, 16);
    OddHalf(0x535E, 15);
    OddHalf(0x29AF, 14);
    OddHalf(0x14D7, 13);
    OddHalf(0xA6B, 12);
    OddHalf(0x535, 11);
    OddHalf(0x29A, 10);
    OddHalf(0x14D, 9);
    OddHalf(0xA6, 8);
    OddHalf(0x53, 7);
    OddHalf(0x29, 6);
    OddHalf(0x14, 5);
    OddHalf(0xA, 4);
    OddHalf(0x5, 3);
    OddHalf(0x2, 2);
    OddHalf(0x1, 1);
    NoBits();
  }

  lemma NoBits()
    ensures !Odd(Binary(0, 0))
  {
  }

  /** What the register and the bits fed to it have in common: feeding a bit adds it to the register's parity. */
  lemma BitStepParity(r: word, bit: bool)
    ensures Odd(BitStep(r, bit)) <==> Odd(r) != bit
  {
    hide Odd, Polynomial, Shift;
    PolynomialOdd();
    OddShift(r);
    OddXor(Shift(r), Polynomial());
  }

  lemma {:induction false} RegisterParity(bits: seq<bool>, r: word)
    ensures Odd(BitRegister(bits, r)) <==> Odd(r) != Odd(bits)
  {
    if bits != [] {
      hide BitStep;
      BitStepParity(r, bits[0]);
      RegisterParity(bits[1..], BitStep(r, bits[0]));
    }
  }

  lemma ResidueEven()
    ensures !Odd(Residue())
  {
    hide Odd, BitRegister, Steps;
    var w := Negated(ZERO);
    OddZeros(16);
    OddNegated(ZERO);
    RegisterParity(w[..16], ZERO);
    WordAtOnce(ZERO, w, 16);
    assert w[..16] == w && w[16..] + Zeros(16) == Zeros(16) && Xor(ZERO, w) == w;
    XorZeros(BitRegister(w, ZERO));
  }

  /** A block with its checksum has an even number of ones, however long it is. */
  lemma ChecksEven(block: seq<octet>)
    requires Checks(block)
    ensures !Odd(Bits(block))
  {
    ChecksIffResidue(block);
    hide Odd, Residue, BitRegister, Bits, Checks;
    ResidueEven();
    OddZeros(16);
    RegisterParity(Bits(block), ZERO);
  }

  /** The number of changed bits is odd. */
  ghost predicate OddChange(x: seq<octet>, y: seq<octet>) {
    |x| == |y| && Ones(Xor(Bits(x), Bits(y))) % 2 == 1
  }

  lemma OddChangeIff(x: seq<octet>, y: seq<octet>)
    requires |x| == |y|
    ensures OddChange(x, y) <==> Odd(Bits(x)) != Odd(Bits(y))
  {
    hide Odd, Bits, Ones;
    OddOnes(Xor(Bits(x), Bits(y)));
    OddXor(Bits(x), Bits(y));
  }

  /** Any change of an odd number of bits of a block and its checksum, wherever they are, is detected. */
  lemma OddDetected(x: seq<octet>, y: seq<octet>)
    requires Checks(x) && OddChange(x, y)
    ensures !Checks(y)
  {
    hide Odd, Bits, Checks;
    OddChangeIff(x, y);
    ChecksEven(x);
    if Checks(y) {
      ChecksEven(y);
    }
  }
}
