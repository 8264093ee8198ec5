/** Sequences of coefficients over GF(2), and 32-bit words read as such. */
module BitPolynomials {

  /** Sum over GF(2), coefficient by coefficient. */
  function Xor(a: seq<bool>, b: seq<bool>): (r: seq<bool>)
    requires |a| == |b|
    ensures |r| == |a|
  {
    seq(|a|, i requires 0 <= i < |a| => a[i] != b[i])
  }

  function Zeros(n: nat): (r: seq<bool>)
    ensures |r| == n
  {
    seq(n, _ => false)
  }

  function Complement(a: seq<bool>): (r: seq<bool>)
    ensures |r| == |a|
  {
    seq(|a|, i requires 0 <= i < |a| => !a[i])
  }

  // ---- Words as bit sequences, bit 0 first ----------------------------------

  function Mask(i: nat): bv32 {
    if i == 0 then 1 else Mask(i - 1) << 1
  }

  predicate Bit(c: bv32, i: nat) {
    c & Mask(i) != 0
  }

  function Bits(c: bv32): (r: seq<bool>)
    ensures |r| == 32
  {
    seq(32, i requires 0 <= i < 32 => Bit(c, i))
  }

  lemma LastMask()
    ensures Mask(7) == 0x80
    ensures Mask(31) == 0x8000_0000
  {
    assert Mask(7) == 0x80;
    assert Mask(15) == 0x8000;
    assert Mask(23) == 0x80_0000;
  }

  lemma OneBitNext(m: bv32)
    requires m & (m - 1) == 0
    ensures (m << 1) & ((m << 1) - 1) == 0
  {}

  lemma {:induction false} OneBit(i: nat)
    ensures Mask(i) & (Mask(i) - 1) == 0
  {
    if i > 0 {
      OneBit(i - 1);
      OneBitNext(Mask(i - 1));
    }
  }

  lemma {:induction false} MaskNonzero(i: nat)
    requires i <= 31
    ensures Mask(i) != 0
    decreases 31 - i
  {
    LastMask();
    if i < 31 {
      MaskNonzero(i + 1);
      assert Mask(i + 1) == Mask(i) << 1;
    }
  }

  lemma OneBitXor(a: bv32, b: bv32, m: bv32)
    requires m & (m - 1) == 0
    ensures ((a ^ b) & m != 0) == ((a & m != 0) != (b & m != 0))
  {}

  lemma XorBits(a: bv32, b: bv32)
    ensures Bits(a ^ b) == Xor(Bits(a), Bits(b))
  {
    forall i | 0 <= i < 32
      ensures Bits(a ^ b)[i] == Xor(Bits(a), Bits(b))[i]
    {
      OneBit(i);
      OneBitXor(a, b, Mask(i));
    }
  }

  lemma OneBitShift(c: bv32, m: bv32)
    requires m & (m - 1) == 0 && m << 1 != 0
    ensures ((c >> 1) & m != 0) == (c & (m << 1) != 0)
  {}

  lemma ShiftBit(c: bv32, i: nat)
    requires i < 31
    ensures Bit(c >> 1, i) == Bit(c, i + 1)
  {
    OneBit(i);
    MaskNonzero(i + 1);
    OneBitShift(c, Mask(i));
  }

  lemma ShiftLastBit(c: bv32)
    ensures !Bit(c >> 1, 31)
  {
    LastMask();
    assert (c >> 1) & 0x8000_0000 == 0;
  }

  lemma ShiftBits(c: bv32)
    ensures Bits(c >> 1) == Bits(c)[1..] + [false]
  {
    forall i | 0 <= i < 32
      ensures Bits(c >> 1)[i] == (Bits(c)[1..] + [false])[i]
    {
      if i < 31 {
        ShiftBit(c, i);
      } else {
        ShiftLastBit(c);
      }
    }
  }

  lemma PairShiftBits(c: bv32)
    ensures Bits(c >> 2) == Bits(c)[2..] + Zeros(2)
  {
    assert (c >> 1) >> 1 == c >> 2;
    ShiftBits(c);
    ShiftBits(c >> 1);
  }

  lemma NibbleShiftBits(c: bv32)
    ensures Bits(c >> 4) == Bits(c)[4..] + Zeros(4)
  {
    assert (c >> 2) >> 2 == c >> 4;
    PairShiftBits(c);
    PairShiftBits(c >> 2);
  }

  lemma ByteShiftBits(c: bv32)
    ensures Bits(c >> 8) == Bits(c)[8..] + Zeros(8)
  {
    assert (c >> 4) >> 4 == c >> 8;
    NibbleShiftBits(c);
    NibbleShiftBits(c >> 4);
  }

  lemma MaskInByte(i: nat)
    requires i < 32
    ensures if i < 8 then Mask(i) & 0xFF == Mask(i) else Mask(i) & 0xFF == 0
    decreases 32 - i
  {
    assert Mask(0) == 1 && Mask(1) == 2 && Mask(2) == 4 && Mask(3) == 8;
    assert Mask(4) == 16 && Mask(5) == 32 && Mask(6) == 64 && Mask(7) == 128;
    if i >= 8 {
      MaskAboveByte(i);
    }
  }

  lemma {:induction false} MaskAboveByte(i: nat)
    requires i >= 8
    ensures Mask(i) & 0xFF == 0
  {
    if i == 8 {
      assert Mask(4) == 16;
      assert Mask(8) == 256;
    } else {
      MaskAboveByte(i - 1);
      ShiftAboveByte(Mask(i - 1));
    }
  }

  lemma ShiftAboveByte(m: bv32)
    requires m & 0xFF == 0
    ensures (m << 1) & 0xFF == 0
  {}

  /** A word with a zero low byte has zero low bits. */
  lemma HighBytesBits(h: bv32, i: nat)
    requires h & 0xFF == 0 && i < 8
    ensures !Bits(h)[i]
  {
    MaskInByte(i);
    MaskedClear(h, Mask(i), 0xFF);
  }

  /** A byte has zero bits from bit 8 on. */
  lemma LowByteBits(b: bv32, i: nat)
    requires b & 0xFFFF_FF00 == 0 && 8 <= i < 32
    ensures !Bits(b)[i]
  {
    MaskAboveByte(i);
    MaskOutside(b, Mask(i));
  }

  lemma MaskedClear(h: bv32, m: bv32, f: bv32)
    requires h & f == 0 && m & f == m
    ensures h & m == 0
  {}

  lemma MaskOutside(b: bv32, m: bv32)
    requires b & 0xFFFF_FF00 == 0 && m & 0xFF == 0
    ensures b & m == 0
  {}

  /** The n lowest bits set. */
  function Low(n: nat): bv32 {
    if n == 0 then 0 else Low(n - 1) | Mask(n - 1)
  }

  lemma LowWord()
    ensures Low(32) == 0xFFFF_FFFF
  {
    assert Low(8) == 0xFF && Mask(8) == 0x100;
    assert Low(16) == 0xFFFF && Mask(16) == 0x1_0000;
    assert Low(24) == 0xFF_FFFF && Mask(24) == 0x100_0000;
  }

  lemma ClearJoin(x: bv32, l: bv32, m: bv32)
    requires x & l == 0 && x & m == 0
    ensures x & (l | m) == 0
  {}

  lemma {:induction false} ClearBelow(x: bv32, n: nat)
    requires forall i | 0 <= i < n :: !Bit(x, i)
    ensures x & Low(n) == 0
  {
    if n > 0 {
      ClearBelow(x, n - 1);
      assert !Bit(x, n - 1);
      ClearJoin(x, Low(n - 1), Mask(n - 1));
    }
  }

  lemma XorZero(a: bv32, b: bv32)
    requires a ^ b == 0
    ensures a == b
  {}

  /** A word is determined by its bits. */
  lemma BitsInjective(a: bv32, b: bv32)
    requires Bits(a) == Bits(b)
    ensures a == b
  {
    var x := a ^ b;
    XorBits(a, b);
    forall i | 0 <= i < 32
      ensures !Bit(x, i)
    {
      assert Bits(x)[i] == (Bits(a)[i] != Bits(b)[i]);
    }
    ClearBelow(x, 32);
    LowWord();
    XorZero(a, b);
  }

  lemma OnesBits()
    ensures Bits(0xFFFF_FFFF) == Complement(Zeros(32))
  {
    forall i | 0 <= i < 32
      ensures Bits(0xFFFF_FFFF)[i]
    {
      MaskNonzero(i);
      AllOnes(Mask(i));
    }
  }

  lemma AllOnes(m: bv32)
    ensures 0xFFFF_FFFF & m == m
  {}

  lemma ComplementBits(c: bv32, r: bv32)
    requires r == c ^ 0xFFFF_FFFF
    ensures Bits(r) == Complement(Bits(c))
  {
    XorBits(c, 0xFFFF_FFFF);
    OnesBits();
  }
}
