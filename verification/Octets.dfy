/**
 Octets and the fixed-width fields built from them. An octet is a number below 256, which is how the decoders do
 arithmetic with it; its eight bits, least significant first, are how the CRC and the wire see it.
 */
module Octets {

  import opened Arithmetic

  type octet = n: int | 0 <= n < 0x100

  // ---------------------------------------------------------------------------------------------------------
  // Bits
  // ---------------------------------------------------------------------------------------------------------

  /** The `width` low bits of `n`, least significant first. */
  function Binary(n: nat, width: nat): (s: seq<bool>)
    ensures |s| == width
  {
    if width == 0 then [] else [n % 2 == 1] + Binary(n / 2, width - 1)
  }

  /** The number a bit string stands for. */
  function Number(s: seq<bool>): (n: nat)
    ensures n < Pow2(|s|)
  {
    if s == [] then 0 else (if s[0] then 1 else 0) + 2 * Number(s[1..])
  }

  lemma {:induction false} NumberOfBinary(n: nat, width: nat)
    requires n < Pow2(width)
    ensures Number(Binary(n, width)) == n
  {
    if width > 0 {
      NumberOfBinary(n / 2, width - 1);
      assert Binary(n, width)[1..] == Binary(n / 2, width - 1);
    }
  }

  lemma {:induction false} BinaryOfNumber(s: seq<bool>)
    ensures Binary(Number(s), |s|) == s
  {
    if s != [] {
      BinaryOfNumber(s[1..]);
    }
  }

  function Zeros(k: nat): (s: seq<bool>)
    ensures |s| == k && forall i :: 0 <= i < k ==> !s[i]
  {
    if k == 0 then [] else [false] + Zeros(k - 1)
  }

  lemma {:induction false} BinaryOfZero(k: nat)
    ensures Binary(0, k) == Zeros(k)
  {
    if k > 0 {
      BinaryOfZero(k - 1);
    }
  }

  /** A number of `j` bits has only zeros above them. */
  lemma {:induction false} BinaryPadded(n: nat, j: nat, k: nat)
    requires n < Pow2(j)
    ensures Binary(n, j + k) == Binary(n, j) + Zeros(k)
  {
    if j == 0 {
      BinaryOfZero(k);
    } else {
      BinaryPadded(n / 2, j - 1, k);
    }
  }

  /** The leading bit of a number that needs all its bits. */
  lemma {:induction false} TopBit(n: nat, width: nat)
    requires width > 0 && Pow2(width - 1) <= n < Pow2(width)
    ensures Binary(n, width)[width - 1]
  {
    if width > 1 {
      TopBit(n / 2, width - 1);
    }
  }

  lemma ByteSize()
    ensures Pow2(8) == 0x100
  {
    assert Pow2(4) == 16;
  }

  /** The bits of an octet in transmission order. */
  function OctetBits(b: octet): (s: seq<bool>)
    ensures |s| == 8
  {
    Binary(b, 8)
  }

  function OctetFromBits(s: seq<bool>): (b: octet)
    requires |s| == 8
    ensures OctetBits(b) == s
  {
    ByteSize();
    BinaryOfNumber(s);
    Number(s)
  }

  lemma OctetBitsInjective(a: octet, b: octet)
    requires OctetBits(a) == OctetBits(b)
    ensures a == b
  {
    ByteSize();
    NumberOfBinary(a, 8);
    NumberOfBinary(b, 8);
  }

  /** Bit `i` of a number, counted from the lowest. */
  lemma {:induction false} BitOf(n: nat, width: nat, i: nat)
    requires i < width
    ensures Binary(n, width)[i] <==> n / Pow2(i) % 2 == 1
  {
    if i > 0 {
      BitOf(n / 2, width - 1, i - 1);
      HalfDivided(n, i);
      NextBit(n, width, i);
    }
  }

  lemma NextBit(n: nat, width: nat, i: nat)
    requires 0 < i < width
    ensures Binary(n, width)[i] == Binary(n / 2, width - 1)[i - 1]
  {
  }

  lemma HalfDivided(n: nat, i: nat)
    requires i > 0
    ensures n / Pow2(i) == n / 2 / Pow2(i - 1)
  {
    hide Pow2;
    NextPower(i);
    DivideTwice(n, 2, Pow2(i - 1));
  }

  lemma NextPower(i: nat)
    requires i > 0
    ensures Pow2(i) == 2 * Pow2(i - 1)
  {
  }

  /** The low `j` bits of a number are the bits of its remainder. */
  lemma {:induction false} LowHalf(n: nat, j: nat, k: nat)
    ensures Binary(n, j + k)[..j] == Binary(n % Pow2(j), j)
  {
    if j > 0 {
      LowHalf(n / 2, j - 1, k);
      RemainderHalved(n, Pow2(j - 1));
      assert Binary(n, j + k) == [n % 2 == 1] + Binary(n / 2, j - 1 + k);
    }
  }

  lemma LowBits(b: octet)
    ensures Number(OctetBits(b)[..4]) == b % 0x10
  {
    hide Binary, Number;
    SixteenBits();
    NumberOfBinary(b % 0x10, 4);
    LowHalf(b, 4, 4);
  }

  lemma SixteenBits()
    ensures Pow2(4) == 0x10
  {
    assert Pow2(2) == 4;
  }

  /** The bits of an octet string, octet by octet. */
  function Bits(data: seq<octet>): (s: seq<bool>)
    ensures |s| == 8 * |data|
  {
    if data == [] then [] else OctetBits(data[0]) + Bits(data[1..])
  }

  lemma {:induction false} BitsConcat(a: seq<octet>, b: seq<octet>)
    ensures Bits(a + b) == Bits(a) + Bits(b)
  {
    if a == [] {
      assert a + b == b;
    } else {
      assert (a + b)[1..] == a[1..] + b;
      BitsConcat(a[1..], b);
    }
  }

  /** The bits of a slice are a slice of the bits. */
  lemma BitsSlice(x: seq<octet>, from: nat, to: nat)
    requires from <= to <= |x|
    ensures Bits(x[from..to]) == Bits(x)[8 * from..8 * to]
  {
    hide Bits;
    assert x == x[..to] + x[to..];
    assert x[..to] == x[..from] + x[from..to];
    BitsConcat(x[..from], x[from..to]);
    BitsConcat(x[..to], x[to..]);
  }

  lemma {:induction false} BitsInjective(a: seq<octet>, b: seq<octet>)
    requires Bits(a) == Bits(b)
    ensures a == b
  {
    if a != [] {
      assert OctetBits(a[0]) == Bits(a)[..8] == Bits(b)[..8] == OctetBits(b[0]);
      assert Bits(a[1..]) == Bits(a)[8..] == Bits(b)[8..] == Bits(b[1..]);
      OctetBitsInjective(a[0], b[0]);
      BitsInjective(a[1..], b[1..]);
    }
  }

  // ---------------------------------------------------------------------------------------------------------
  // Fields
  // ---------------------------------------------------------------------------------------------------------

  /** A 16-bit word, least significant bit first. */
  type word = s: seq<bool> | |s| == 16 witness Zeros(16)

  /** The word whose little-endian octets are `lo` and `hi`. */
  function Word(lo: octet, hi: octet): word {
    OctetBits(lo) + OctetBits(hi)
  }

  /** The two little-endian octets of a word, as `to_le_bytes` gives them. */
  function WordOctets(w: word): (s: seq<octet>)
    ensures |s| == 2 && Word(s[0], s[1]) == w
  {
    assert w == w[..8] + w[8..];
    [OctetFromBits(w[..8]), OctetFromBits(w[8..])]
  }

  /** `n` times two to the `k`. */
  function Doubled(n: nat, k: nat): nat {
    if k == 0 then n else 2 * Doubled(n, k - 1)
  }

  lemma {:induction false} NumberConcat(a: seq<bool>, b: seq<bool>)
    ensures Number(a + b) == Number(a) + Doubled(Number(b), |a|)
  {
    if a == [] {
      assert a + b == b;
    } else {
      assert (a + b)[1..] == a[1..] + b;
      NumberConcat(a[1..], b);
    }
  }

  lemma WordNumber(lo: octet, hi: octet)
    ensures Number(Word(lo, hi)) == lo + 0x100 * hi
  {
    hide OctetBits, Number, Binary;
    OctetNumber(lo);
    OctetNumber(hi);
    NumberConcat(OctetBits(lo), OctetBits(hi));
    DoubledEight(hi);
  }

  lemma OctetNumber(b: octet)
    ensures Number(OctetBits(b)) == b
  {
    ByteSize();
    NumberOfBinary(b, 8);
  }

  lemma DoubledEight(n: nat)
    ensures Doubled(n, 8) == 0x100 * n
  {
    assert Doubled(n, 8) == 4 * Doubled(n, 6);
    assert Doubled(n, 6) == 4 * Doubled(n, 4);
    assert Doubled(n, 4) == 4 * Doubled(n, 2);
    assert Doubled(n, 2) == 2 * Doubled(n, 1) == 4 * Doubled(n, 0);
  }

  lemma WordInjective(lo: octet, hi: octet, lo': octet, hi': octet)
    requires Word(lo, hi) == Word(lo', hi')
    ensures lo == lo' && hi == hi'
  {
    assert OctetBits(lo) == Word(lo, hi)[..8] == Word(lo', hi')[..8] == OctetBits(lo');
    assert OctetBits(hi) == Word(lo, hi)[8..] == Word(lo', hi')[8..] == OctetBits(hi');
    OctetBitsInjective(lo, lo');
    OctetBitsInjective(hi, hi');
  }

  function Pow256(width: nat): (p: nat)
    ensures p >= 1
  {
    if width == 0 then 1 else 0x100 * Pow256(width - 1)
  }

  /** A little-endian unsigned field: u16 and u32 are its 2- and 4-octet cases. */
  function LittleEndian(s: seq<octet>): (n: nat)
    ensures n < Pow256(|s|)
  {
    if s == [] then 0 else s[0] + 0x100 * LittleEndian(s[1..])
  }

  /** `n` in `width` little-endian octets; the caller has checked that it fits. */
  function LittleEndianOctets(n: nat, width: nat): (s: seq<octet>)
    requires n < Pow256(width)
    ensures |s| == width
  {
    if width == 0 then [] else [n % 0x100] + LittleEndianOctets(n / 0x100, width - 1)
  }

  lemma {:induction false} LittleEndianReadsBack(n: nat, width: nat)
    requires n < Pow256(width)
    ensures LittleEndian(LittleEndianOctets(n, width)) == n
  {
    if width > 0 {
      LittleEndianReadsBack(n / 0x100, width - 1);
      assert LittleEndianOctets(n, width)[1..] == LittleEndianOctets(n / 0x100, width - 1);
    }
  }

  lemma {:induction false} LittleEndianWritesBack(s: seq<octet>)
    ensures LittleEndianOctets(LittleEndian(s), |s|) == s
  {
    if s != [] {
      LittleEndianWritesBack(s[1..]);
      var n := LittleEndian(s);
      assert n % 0x100 == s[0] && n / 0x100 == LittleEndian(s[1..]);
      assert s == [s[0]] + s[1..];
    }
  }

  /** A big-endian 16-bit field. */
  function BigEndian16(hi: octet, lo: octet): (n: nat)
    ensures n < 0x1_0000
  {
    0x100 * hi + lo
  }

  function BigEndian16Octets(n: nat): (s: seq<octet>)
    requires n < 0x1_0000
    ensures |s| == 2 && BigEndian16(s[0], s[1]) == n
  {
    [n / 0x100, n % 0x100]
  }
}
