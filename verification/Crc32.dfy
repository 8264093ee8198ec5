/** CalculateCrc of gnu-efi/lib/crc.c.

    A 32-bit register is read as a polynomial over GF(2) of degree below 32, a
    sequence of 32 coefficients with the highest power first (bit 0 of the
    reflected register is the coefficient of x^31).  The table-driven loop is
    proved to be schoolbook long division of the message polynomial by the
    generator (section 8 of RFC 1952, section 8.1.1.6.2 of ITU-T V.42), and the
    error-detection theorem is proved about that division. */
module Crc32 {
  import opened BitPolynomials
  import opened CrcTable

  // ---- Long division --------------------------------------------------------

  /** The generator's coefficients of x^31 down to x^0; its leading term is x^32. */
  const GENERATOR: seq<bool> := Bits(POLYNOMIAL)

  /** Remainder of p by the generator, p given highest power first: while more
      than 32 coefficients are left, cancel the first with the generator. */
  function Remainder(p: seq<bool>): (r: seq<bool>)
    requires |p| >= 32
    ensures |r| == 32
    decreases |p|
  {
    if |p| == 32 then p
    else if p[0] then Remainder(Xor(p[1..33], GENERATOR) + p[33..])
    else Remainder(p[1..])
  }

  /** Message bytes as coefficients, least significant bit of each byte first. */
  function MessageBits(m: seq<bv8>): (r: seq<bool>)
    ensures |r| == 8 * |m|
  {
    if m == [] then [] else Bits(m[0] as bv32)[..8] + MessageBits(m[1..])
  }

  /** Add r into the 32 leading coefficients of p. */
  function Overlay(r: seq<bool>, p: seq<bool>): (s: seq<bool>)
    requires |r| == 32 && |p| >= 32
    ensures |s| == |p|
  {
    Xor(r, p[..32]) + p[32..]
  }

  /** The CRC of m: multiply m(x) by x^32, complement the 32 leading
      coefficients, divide, complement the remainder. */
  function CrcBits(m: seq<bv8>): (r: seq<bool>)
    ensures |r| == 32
  {
    Complement(Remainder(Overlay(Complement(Zeros(32)), MessageBits(m) + Zeros(32))))
  }

  // ---- The register divides -------------------------------------------------

  /** Bring down one zero coefficient: shift, and cancel with the generator. */
  function Shifted(r: seq<bool>): (s: seq<bool>)
    requires |r| == 32
    ensures |s| == 32
  {
    if r[0] then Xor(r[1..] + [false], GENERATOR) else r[1..] + [false]
  }

  lemma StepBits(c: bv32)
    ensures Bits(BitStep(c)) == Shifted(Bits(c))
  {
    assert Bits(c)[0] <==> c & Mask(0) != 0;
    ShiftBits(c);
    XorBits(c >> 1, POLYNOMIAL);
  }

  lemma OverlayTail(r: seq<bool>, p: seq<bool>)
    requires |r| == 32 && |p| >= 32
    ensures Overlay(r, [false] + p)[0] == r[0]
    ensures Overlay(r, [false] + p)[1..] == Overlay(r[1..] + [false], p)
  {
    var q := [false] + p;
    var s := r[1..] + [false];
    forall i | 0 <= i < |p|
      ensures Overlay(r, q)[i + 1] == Overlay(s, p)[i]
    {
      assert q[i + 1] == p[i];
    }
  }

  /** The leading coefficient of the dividend is consumed by one shift of r. */
  lemma ShiftDivides(r: seq<bool>, p: seq<bool>)
    requires |r| == 32 && |p| >= 32
    ensures Remainder(Overlay(r, [false] + p)) == Remainder(Overlay(Shifted(r), p))
  {
    var d := Overlay(r, [false] + p);
    OverlayTail(r, p);
    var s := r[1..] + [false];
    if r[0] {
      assert d[1..33] == d[1..][..32] == Xor(s, p[..32]);
      assert Xor(d[1..33], GENERATOR) == Xor(Xor(s, GENERATOR), p[..32]);
      assert d[33..] == d[1..][32..] == p[32..];
    }
  }

  /** One shift for each coefficient brought down. */
  function Shifts(r: seq<bool>, zeros: seq<bool>): (s: seq<bool>)
    requires |r| == 32
    ensures |s| == 32
    decreases |zeros|
  {
    if zeros == [] then r else Shifts(Shifted(r), zeros[1..])
  }

  lemma {:induction false} ShiftsDivide(r: seq<bool>, n: nat, p: seq<bool>)
    requires |r| == 32 && |p| >= 32
    ensures Remainder(Overlay(r, Zeros(n) + p)) == Remainder(Overlay(Shifts(r, Zeros(n)), p))
    decreases n
  {
    if n == 0 {
      assert Zeros(0) + p == p;
    } else {
      assert Zeros(n)[1..] == Zeros(n - 1);
      assert Zeros(n) + p == [false] + (Zeros(n - 1) + p);
      ShiftDivides(r, Zeros(n - 1) + p);
      ShiftsDivide(Shifted(r), n - 1, p);
    }
  }

  lemma ShiftedSplit(a: seq<bool>, b: seq<bool>)
    requires |a| == |b| == 32 && !b[0]
    ensures Shifted(Xor(a, b)) == Xor(Shifted(a), b[1..] + [false])
  {}

  /** A summand with n zero leading coefficients only moves up under n shifts. */
  lemma {:induction false} ShiftsSplit(a: seq<bool>, b: seq<bool>, n: nat)
    requires |a| == |b| == 32 && n <= 32
    requires forall i | 0 <= i < n :: !b[i]
    ensures Shifts(Xor(a, b), Zeros(n)) == Xor(Shifts(a, Zeros(n)), b[n..] + Zeros(n))
    decreases n
  {
    if n == 0 {
      assert b[0..] + Zeros(0) == b;
    } else {
      var b' := b[1..] + [false];
      assert Zeros(n)[1..] == Zeros(n - 1);
      ShiftedSplit(a, b);
      ShiftsSplit(Shifted(a), b', n - 1);
      assert b'[n - 1..] + Zeros(n - 1) == b[n..] + Zeros(n);
    }
  }

  // ---- Eight shifts are one table step --------------------------------------

  lemma ShiftsNext(r: seq<bool>, n: nat)
    requires |r| == 32 && n > 0
    ensures Shifts(r, Zeros(n)) == Shifts(Shifted(r), Zeros(n - 1))
  {
    assert Zeros(n)[1..] == Zeros(n - 1);
  }

  lemma FourStepsBits(c: bv32, n: nat)
    requires n >= 4
    ensures Shifts(Bits(c), Zeros(n)) == Shifts(Bits(BitStep(BitStep(BitStep(BitStep(c))))), Zeros(n - 4))
  {
    StepBits(c);
    StepBits(BitStep(c));
    StepBits(BitStep(BitStep(c)));
    StepBits(BitStep(BitStep(BitStep(c))));
    ShiftsNext(Bits(c), n);
    ShiftsNext(Bits(BitStep(c)), n - 1);
    ShiftsNext(Bits(BitStep(BitStep(c))), n - 2);
    ShiftsNext(Bits(BitStep(BitStep(BitStep(c)))), n - 3);
  }

  lemma EightStepsBits(c: bv32)
    ensures Bits(EightSteps(c)) == Shifts(Bits(c), Zeros(8))
  {
    FourStepsBits(c, 8);
    FourStepsBits(BitStep(BitStep(BitStep(BitStep(c)))), 4);
  }

  lemma ByteSplit(c: bv32, b: bv8, x: bv32, h: bv32, y: bv32, d: bv32)
    requires x == (((c & 0xFF) as bv8) ^ b) as bv32
    requires h == c & 0xFFFF_FF00 && y == c ^ (b as bv32) && d == c >> 8
    ensures y == x ^ h && h & 0xFF == 0 && h >> 8 == d
  {}

  lemma ByteSplitBits(x: bv32, h: bv32, y: bv32, d: bv32)
    requires y == x ^ h && h & 0xFF == 0 && h >> 8 == d
    ensures Shifts(Bits(y), Zeros(8)) == Xor(Shifts(Bits(x), Zeros(8)), Bits(d))
  {
    XorBits(x, h);
    forall i | 0 <= i < 8
      ensures !Bits(h)[i]
    {
      HighBytesBits(h, i);
    }
    ShiftsSplit(Bits(x), Bits(h), 8);
    ByteShiftBits(h);
  }

  lemma EntryStepBits(d: bv32, t: bv32, r: bv32, x: seq<bool>, y: seq<bool>)
    requires r == d ^ t && Bits(t) == x && y == Xor(x, Bits(d))
    ensures Bits(r) == y
  {
    XorBits(d, t);
    XorCommutes(Bits(d), Bits(t));
  }

  lemma SplitStepBits(x: bv32, h: bv32, y: bv32, d: bv32, t: bv32, r: bv32)
    requires y == x ^ h && h & 0xFF == 0 && h >> 8 == d
    requires Bits(t) == Shifts(Bits(x), Zeros(8)) && r == d ^ t
    ensures Bits(r) == Shifts(Bits(y), Zeros(8))
  {
    ByteSplitBits(x, h, y, d);
    EntryStepBits(d, t, r, Shifts(Bits(x), Zeros(8)), Shifts(Bits(y), Zeros(8)));
  }

  lemma TableStepBits(c: bv32, b: bv8, x: bv32, y: bv32, t: bv32, r: bv32)
    requires x == (((c & 0xFF) as bv8) ^ b) as bv32 && y == c ^ (b as bv32)
    requires Bits(t) == Shifts(Bits(x), Zeros(8)) && r == (c >> 8) ^ t
    ensures Bits(r) == Shifts(Bits(y), Zeros(8))
  {
    var h := c & 0xFFFF_FF00;
    var d := c >> 8;
    ByteSplit(c, b, x, h, y, d);
    SplitStepBits(x, h, y, d, t, r);
  }

  lemma XorCommutes(a: seq<bool>, b: seq<bool>)
    requires |a| == |b|
    ensures Xor(a, b) == Xor(b, a)
  {}

  lemma OverlayByte(c: bv32, w: bv32, y: bv32, p: seq<bool>)
    requires |p| >= 32 && w & 0xFFFF_FF00 == 0 && y == c ^ w
    ensures Overlay(Bits(c), Bits(w)[..8] + p) == Overlay(Bits(y), Zeros(8) + p)
  {
    XorBits(c, w);
    forall i | 8 <= i < 32
      ensures !Bits(w)[i]
    {
      LowByteBits(w, i);
    }
  }

  lemma EntryDivides(c: bv32, b: bv8, x: bv32, t: bv32, r: bv32, p: seq<bool>)
    requires |p| >= 32
    requires x == (((c & 0xFF) as bv8) ^ b) as bv32 && r == (c >> 8) ^ t
    requires Bits(t) == Shifts(Bits(x), Zeros(8))
    ensures Remainder(Overlay(Bits(c), Bits(b as bv32)[..8] + p)) == Remainder(Overlay(Bits(r), p))
  {
    var w := b as bv32;
    var y := c ^ w;
    OverlayByte(c, w, y, p);
    ShiftsDivide(Bits(y), 8, p);
    TableStepBits(c, b, x, y, t, r);
  }

  lemma WideStep(wide: bv64, c: bv32, b: bv8, index: bv8, t: bv32, next: bv64, r: bv32)
    requires wide == c as bv64 && index == ((wide & 0xFF) as bv8) ^ b
    requires next == (wide >> 8) ^ (t as bv64) && r == (c >> 8) ^ t
    ensures next == r as bv64
    ensures index as bv32 == (((c & 0xFF) as bv8) ^ b) as bv32
  {}

  /** One pass of the loop consumes the eight coefficients of one message byte,
      and the 64-bit accumulator stays the zero-extension of a 32-bit register. */
  lemma TableStepDivides(wide: bv64, c: bv32, b: bv8, index: bv8, t: bv32, next: bv64, p: seq<bool>)
      returns (r: bv32)
    requires |p| >= 32
    requires wide == c as bv64 && index == ((wide & 0xFF) as bv8) ^ b
    requires Bits(t) == Shifts(Bits(index as bv32), Zeros(8)) && next == (wide >> 8) ^ (t as bv64)
    ensures next == r as bv64
    ensures Remainder(Overlay(Bits(c), Bits(b as bv32)[..8] + p)) == Remainder(Overlay(Bits(r), p))
  {
    r := (c >> 8) ^ t;
    WideStep(wide, c, b, index, t, next, r);
    EntryDivides(c, b, index as bv32, t, r, p);
  }

  // ---- The loop is the division ---------------------------------------------

  /** Register c with the bytes from i on still to come divides to the CRC of m. */
  ghost predicate Divided(m: seq<bv8>, i: nat, c: bv32)
    requires i <= |m|
  {
    CrcBits(m) == Complement(Remainder(Overlay(Bits(c), MessageBits(m[i..]) + Zeros(32))))
  }

  lemma DividedStart(m: seq<bv8>)
    ensures Divided(m, 0, 0xFFFF_FFFF)
  {
    OnesBits();
    assert m[0..] == m;
  }

  lemma MessageBitsSplit(m: seq<bv8>, i: nat)
    requires i < |m|
    ensures MessageBits(m[i..]) == Bits(m[i] as bv32)[..8] + MessageBits(m[i + 1..])
  {
    assert m[i..][1..] == m[i + 1..];
  }

  lemma DividedNext(m: seq<bv8>, i: nat, c: bv32, r: bv32, p: seq<bool>)
    requires i < |m| && Divided(m, i, c) && p == MessageBits(m[i + 1..]) + Zeros(32)
    requires Remainder(Overlay(Bits(c), Bits(m[i] as bv32)[..8] + p)) == Remainder(Overlay(Bits(r), p))
    ensures Divided(m, i + 1, r)
  {
    MessageBitsSplit(m, i);
    assert MessageBits(m[i..]) + Zeros(32) == Bits(m[i] as bv32)[..8] + p;
  }

  lemma DividedStep(m: seq<bv8>, i: nat, wide: bv64, c: bv32, b: bv8, index: bv8, t: bv32, next: bv64)
      returns (r: bv32)
    requires i < |m| && b == m[i] && Divided(m, i, c)
    requires wide == c as bv64 && index == ((wide & 0xFF) as bv8) ^ b
    requires Bits(t) == Shifts(Bits(index as bv32), Zeros(8)) && next == (wide >> 8) ^ (t as bv64)
    ensures next == r as bv64 && Divided(m, i + 1, r)
  {
    var p := MessageBits(m[i + 1..]) + Zeros(32);
    r := TableStepDivides(wide, c, b, index, t, next, p);
    DividedNext(m, i, c, r, p);
  }

  lemma WideComplement(wide: bv64, c: bv32)
    requires wide == c as bv64
    ensures wide ^ 0xFFFF_FFFF < 0x1_0000_0000
    ensures (wide ^ 0xFFFF_FFFF) as bv32 == c ^ 0xFFFF_FFFF
  {}

  lemma DividedEnd(m: seq<bv8>, c: bv32, r: bv32)
    requires Divided(m, |m|, c) && r == c ^ 0xFFFF_FFFF
    ensures Bits(r) == CrcBits(m)
  {
    assert MessageBits(m[|m|..]) + Zeros(32) == Zeros(32);
    assert Overlay(Bits(c), Zeros(32)) == Bits(c);
    ComplementBits(c, r);
  }

  // ---- A known value --------------------------------------------------------

  lemma ByteStep(m: seq<bv8>, i: nat, c: bv32, b: bv8, x: bv32, t: bv32, r: bv32)
    requires i < |m| && m[i] == b && Divided(m, i, c)
    requires x == (((c & 0xFF) as bv8) ^ b) as bv32 && t == EightSteps(x) && r == (c >> 8) ^ t
    ensures Divided(m, i + 1, r)
  {
    hide *;
    EightStepsBits(x);
    var p := MessageBits(m[i + 1..]) + Zeros(32);
    EntryDivides(c, b, x, t, r, p);
    DividedNext(m, i, c, r, p);
  }

  /** The digits 1 to 9 in ASCII. */
  const DIGITS: seq<bv8> := [0x31, 0x32, 0x33, 0x34, 0x35, 0x36, 0x37, 0x38, 0x39]

  lemma FirstFive()
    ensures Divided(DIGITS, 5, 0x340A_C5E3)
  {
    hide Divided;
    DividedStart(DIGITS);
    ByteStep(DIGITS, 0, 0xFFFF_FFFF, 0x31, 0xCE, 0x7CDC_EFB7, 0x7C23_1048);
    ByteStep(DIGITS, 1, 0x7C23_1048, 0x32, 0x7A, 0xB0D0_9822, 0xB0AC_BB32);
    ByteStep(DIGITS, 2, 0xB0AC_BB32, 0x33, 0x01, 0x7707_3096, 0x77B7_9C2D);
    ByteStep(DIGITS, 3, 0x77B7_9C2D, 0x34, 0x19, 0x646B_A8C0, 0x641C_1F5C);
    ByteStep(DIGITS, 4, 0x641C_1F5C, 0x35, 0x69, 0x346E_D9FC, 0x340A_C5E3);
  }

  lemma LastFour()
    requires Divided(DIGITS, 5, 0x340A_C5E3)
    ensures Divided(DIGITS, 9, 0x340B_C6D9)
  {
    hide Divided;
    ByteStep(DIGITS, 5, 0x340A_C5E3, 0x36, 0xD5, 0xF6B9_265B, 0xF68D_2C9E);
    ByteStep(DIGITS, 6, 0xF68D_2C9E, 0x37, 0xA9, 0xAF0A_1B4C, 0xAFFC_9660);
    ByteStep(DIGITS, 7, 0xAFFC_9660, 0x38, 0x58, 0x65B0_D9C6, 0x651F_2550);
    ByteStep(DIGITS, 8, 0x651F_2550, 0x39, 0x69, 0x346E_D9FC, 0x340B_C6D9);
  }

  /** They have the CRC that identifies this algorithm in every catalogue. */
  lemma CheckValue()
    ensures CrcBits([0x31, 0x32, 0x33, 0x34, 0x35, 0x36, 0x37, 0x38, 0x39]) == Bits(0xCBF4_3926)
  {
    hide Divided, CrcBits, Bits;
    FirstFive();
    LastFour();
    DividedEnd(DIGITS, 0x340B_C6D9, 0xCBF4_3926);
  }

  /** Final inversion and truncation to 32 bits. */
  method Finish(crc: bv64, ghost m: seq<bv8>, ghost c: bv32) returns (r: bv32)
    requires crc == c as bv64 && Divided(m, |m|, c)
    ensures Bits(r) == CrcBits(m)
  {
    WideComplement(crc, c);
    r := (crc ^ 0xFFFF_FFFF) as bv32;
    DividedEnd(m, c, r);
  }

  /** A table access: entry i is the register i after eight shifts. */
  method LookUp(i: bv8) returns (t: bv32)
    ensures Bits(t) == Shifts(Bits(i as bv32), Zeros(8))
  {
    TableEntry(i);
    t := CRC_TABLE[i as nat];
    EightStepsBits(i as bv32);
  }

  /** The accumulator is a 64-bit UINTN: crc == c as bv64 says it never leaves 32 bits. */
  method CalculateCrc(pt: array<bv8>, size: nat) returns (r: bv32)
    requires size <= pt.Length
    ensures Bits(r) == CrcBits(pt[..size])
  {
    ghost var m := pt[..size];
    ghost var c: bv32 := 0xFFFF_FFFF;
    var crc: bv64 := 0xFFFF_FFFF;
    var i := 0;
    DividedStart(m);
    while i < size
      invariant 0 <= i <= size
      invariant crc == c as bv64
      invariant Divided(m, i, c)
    {
      var index := ((crc & 0xFF) as bv8) ^ pt[i];
      var t := LookUp(index);
      var next := (crc >> 8) ^ (t as bv64);
      c := DividedStep(m, i, crc, c, pt[i], index, t, next);
      crc := next;
      i := i + 1;
    }
    r := Finish(crc, m, c);
  }

  // ---- Error detection ------------------------------------------------------

  /** One step of long division. */
  function Cancel(p: seq<bool>): (r: seq<bool>)
    requires |p| > 32
    ensures |r| == |p| - 1
    ensures Remainder(p) == Remainder(r)
  {
    if p[0] then Xor(p[1..33], GENERATOR) + p[33..] else p[1..]
  }

  lemma CancelLinear(p: seq<bool>, q: seq<bool>)
    requires |p| == |q| > 32
    ensures Cancel(Xor(p, q)) == Xor(Cancel(p), Cancel(q))
  {
    hide Cancel, Remainder;
    var x, y := Cancel(Xor(p, q)), Xor(Cancel(p), Cancel(q));
    forall i | 0 <= i < |p| - 1
      ensures x[i] == y[i]
    {
      CancelAt(Xor(p, q), i);
      CancelAt(p, i);
      CancelAt(q, i);
    }
  }

  lemma CancelAt(p: seq<bool>, i: nat)
    requires |p| > 32 && i < |p| - 1
    ensures Cancel(p)[i] == (p[i + 1] != (p[0] && i < 32 && GENERATOR[i]))
  {
    hide Remainder;
  }

  lemma {:induction false} RemainderLinear(p: seq<bool>, q: seq<bool>)
    requires |p| == |q| >= 32
    ensures Remainder(Xor(p, q)) == Xor(Remainder(p), Remainder(q))
    decreases |p|
  {
    if |p| > 32 {
      RemainderLinear(Cancel(p), Cancel(q));
      CancelLinear(p, q);
    }
  }

  lemma {:induction false} RemainderOfZeros(n: nat, p: seq<bool>)
    requires |p| >= 32
    ensures Remainder(Zeros(n) + p) == Remainder(p)
  {
    if n == 0 {
      assert Zeros(0) + p == p;
    } else {
      RemainderOfZeros(n - 1, p);
      assert (Zeros(n) + p)[1..] == Zeros(n - 1) + p;
    }
  }

  lemma ShiftedNonzero(r: seq<bool>)
    requires |r| == 32 && r != Zeros(32)
    ensures Shifted(r) != Zeros(32)
  {
    if r[0] {
      LastMask();
      assert POLYNOMIAL & 0x8000_0000 != 0;
      assert GENERATOR[31];
      assert Shifted(r)[31];
    } else {
      var i :| 0 <= i < 32 && r[i];
      assert Shifted(r)[i - 1];
    }
  }

  /** r(x) * x^t is not a multiple of the generator unless r is zero. */
  lemma {:induction false} RemainderNonzero(r: seq<bool>, t: nat)
    requires |r| == 32 && r != Zeros(32)
    ensures Remainder(r + Zeros(t)) != Zeros(32)
    decreases t
  {
    if t == 0 {
      assert r + Zeros(t) == r;
    } else {
      hide Overlay, Remainder, Shifted;
      OverlayZeros(r, t);
      assert Zeros(32 + t) == [false] + Zeros(31 + t);
      ShiftDivides(r, Zeros(31 + t));
      ShiftedNonzero(r);
      OverlayZeros(Shifted(r), t - 1);
      RemainderNonzero(Shifted(r), t - 1);
    }
  }

  lemma OverlayZeros(r: seq<bool>, t: nat)
    requires |r| == 32
    ensures Overlay(r, Zeros(32 + t)) == r + Zeros(t)
  {
    assert Zeros(32 + t)[..32] == Zeros(32) && Zeros(32 + t)[32..] == Zeros(t);
    assert Xor(r, Zeros(32)) == r;
  }

  lemma ByteBitsInjective(a: bv8, b: bv8)
    requires Bits(a as bv32)[..8] == Bits(b as bv32)[..8]
    ensures a == b
  {
    var v, w := a as bv32, b as bv32;
    ByteIsLow(a);
    ByteIsLow(b);
    forall i | 0 <= i < 32
      ensures Bits(v)[i] == Bits(w)[i]
    {
      if i < 8 {
        assert Bits(v)[i] == Bits(v)[..8][i] && Bits(w)[i] == Bits(w)[..8][i];
      } else {
        LowByteBits(v, i);
        LowByteBits(w, i);
      }
    }
    BitsInjective(v, w);
    ByteOfWord(a, b);
  }

  lemma ByteIsLow(b: bv8)
    ensures (b as bv32) & 0xFFFF_FF00 == 0
  {}

  lemma ByteOfWord(a: bv8, b: bv8)
    requires a as bv32 == b as bv32
    ensures a == b
  {}

  lemma {:induction false} MessageBitsInjective(m: seq<bv8>, n: seq<bv8>)
    requires MessageBits(m) == MessageBits(n)
    ensures m == n
  {
    if m != [] {
      MessageBitsSplit(m, 0);
      MessageBitsSplit(n, 0);
      assert m[0..] == m && n[0..] == n;
      assert MessageBits(m)[..8] == MessageBits(n)[..8] && MessageBits(m)[8..] == MessageBits(n)[8..];
      ByteBitsInjective(m[0], n[0]);
      MessageBitsInjective(m[1..], n[1..]);
      assert m == [m[0]] + m[1..] && n == [n[0]] + n[1..];
    }
  }

  lemma XorOverlay(r: seq<bool>, p: seq<bool>, q: seq<bool>)
    requires |r| == 32 && |p| == |q| >= 32
    ensures Xor(Overlay(r, p), Overlay(r, q)) == Xor(p, q)
  {}

  /** The difference of two remainders is the remainder of the difference. */
  lemma SameCrcSameRemainder(m: seq<bv8>, n: seq<bv8>)
    requires |m| == |n| && CrcBits(m) == CrcBits(n)
    ensures Remainder(Xor(MessageBits(m), MessageBits(n)) + Zeros(32)) == Zeros(32)
  {
    var ones := Complement(Zeros(32));
    var p, q := MessageBits(m) + Zeros(32), MessageBits(n) + Zeros(32);
    var a, b := Remainder(Overlay(ones, p)), Remainder(Overlay(ones, q));
    assert a == Complement(CrcBits(m)) && b == Complement(CrcBits(n));
    assert Xor(a, b) == Zeros(32);
    RemainderLinear(Overlay(ones, p), Overlay(ones, q));
    XorOverlay(ones, p, q);
    assert Xor(p, q) == Xor(MessageBits(m), MessageBits(n)) + Zeros(32);
  }

  /** m and n agree outside the 32 coefficients that start at `from`. */
  ghost predicate DifferWithin(m: seq<bool>, n: seq<bool>, from: nat)
    requires |m| == |n|
  {
    forall i | 0 <= i < |m| && !(from <= i < from + 32) :: m[i] == n[i]
  }

  lemma BurstShape(e: seq<bool>, from: nat)
    requires from + 32 <= |e|
    requires forall i | 0 <= i < |e| && !(from <= i < from + 32) :: !e[i]
    ensures e == Zeros(from) + (e[from..from + 32] + Zeros(|e| - from - 32))
  {
    var f := Zeros(from) + (e[from..from + 32] + Zeros(|e| - from - 32));
    forall i | 0 <= i < |e|
      ensures e[i] == f[i]
    {
      if i >= from {
        assert f[i] == (e[from..from + 32] + Zeros(|e| - from - 32))[i - from];
      }
    }
  }

  /** A nonzero burst of at most 32 coefficients is no multiple of the generator. */
  lemma BurstRemainder(e: seq<bool>, r: seq<bool>, from: nat, t: nat)
    requires |r| == 32 && r != Zeros(32) && e == Zeros(from) + (r + Zeros(t))
    ensures Remainder(e) != Zeros(32)
  {
    RemainderOfZeros(from, r + Zeros(t));
    RemainderNonzero(r, t);
  }

  lemma PaddedBurst(d: seq<bool>, from: nat, hit: nat)
    requires hit < |d| && d[hit]
    requires forall i | 0 <= i < |d| && !(from <= i < from + 32) :: !d[i]
    ensures Remainder(d + Zeros(32)) != Zeros(32)
  {
    var e := d + Zeros(32);
    assert e[hit];
    BurstShape(e, from);
    var r := e[from..from + 32];
    assert r[hit - from];
    BurstRemainder(e, r, from, |e| - from - 32);
  }

  /** Two different messages of equal length that differ only inside 32
      consecutive bits, at any bit position, have different CRCs. */
  lemma BurstDetected(m: seq<bv8>, n: seq<bv8>, from: nat)
    requires |m| == |n| && m != n
    requires DifferWithin(MessageBits(m), MessageBits(n), from)
    ensures CrcBits(m) != CrcBits(n)
  {
    var p, q := MessageBits(m), MessageBits(n);
    if p == q {
      MessageBitsInjective(m, n);
    }
    var hit :| 0 <= hit < |p| && p[hit] != q[hit];
    PaddedBurst(Xor(p, q), from, hit);
    if CrcBits(m) == CrcBits(n) {
      SameCrcSameRemainder(m, n);
    }
  }

  /** The eight coefficients of one byte. */
  function ByteBits(b: bv8): (r: seq<bool>)
    ensures |r| == 8
  {
    Bits(b as bv32)[..8]
  }

  lemma FrontBits(m: seq<bv8>)
    requires m != []
    ensures MessageBits(m) == ByteBits(m[0]) + MessageBits(m[1..])
  {
    MessageBitsSplit(m, 0);
    assert m[0..] == m;
  }

  lemma {:induction false} MessageBitsIndex(m: seq<bv8>, i: nat)
    requires i < 8 * |m|
    ensures MessageBits(m)[i] == ByteBits(m[i / 8])[i % 8]
  {
    hide MessageBits, ByteBits;
    FrontBits(m);
    ByteIndex(i);
    if i >= 8 {
      MessageBitsIndex(m[1..], i - 8);
      assert m[1..][i / 8 - 1] == m[i / 8];
    }
  }

  lemma MessageBitsAt(m: seq<bv8>, i: nat)
    requires i < 8 * |m|
    ensures MessageBits(m)[i] == Bits(m[i / 8] as bv32)[i % 8]
  {
    hide MessageBits, Bits;
    MessageBitsIndex(m, i);
    ByteBitsAt(m[i / 8], i % 8);
  }

  lemma ByteBitsAt(b: bv8, j: nat)
    requires j < 8
    ensures ByteBits(b)[j] == Bits(b as bv32)[j]
  {
    hide Bits;
  }

  lemma ByteIndex(i: nat)
    ensures i < 8 ==> i / 8 == 0 && i % 8 == i
    ensures i >= 8 ==> (i - 8) / 8 == i / 8 - 1 && (i - 8) % 8 == i % 8
  {}

  /** The byte-aligned case: only bytes at, to at+3 may differ. */
  lemma FourByteBurst(m: seq<bv8>, n: seq<bv8>, at: nat)
    requires |m| == |n| && m != n
    requires forall i | 0 <= i < |m| && !(at <= i < at + 4) :: m[i] == n[i]
    ensures CrcBits(m) != CrcBits(n)
  {
    forall i | 0 <= i < 8 * |m| && !(8 * at <= i < 8 * at + 32)
      ensures MessageBits(m)[i] == MessageBits(n)[i]
    {
      MessageBitsAt(m, i);
      MessageBitsAt(n, i);
    }
    BurstDetected(m, n, 8 * at);
  }
}
