/** DivU64x32 of gnu-efi/lib/ia32/math.c: 64 rounds of shift, compare and
    subtract on a 64-bit dividend kept in two dwords and a 32-bit remainder.
    Round says what one round does; ShiftSubtract is the assembly, flag by flag. */
module Division {
  import opened Common

  /** The memory the assembly works on: low and high dividend dwords, Rem. */
  datatype Registers = Registers(lo: nat, hi: nat, rem: nat)

  predicate Valid(s: Registers) {
    s.lo < DWORD && s.hi < DWORD && s.rem < DWORD
  }

  function Dividend(s: Registers): nat {
    s.hi * DWORD + s.lo
  }

  /** One round: shift rem:dividend left, and subtract the divisor from Rem when it fits, setting the low bit. */
  function Round(s: Registers, divisor: nat): (t: Registers)
    requires Valid(s)
    ensures Valid(t)
  {
    var carry0 := s.lo / 0x8000_0000;
    var lo := s.lo * 2 % DWORD;
    var carry1 := s.hi / 0x8000_0000;
    var hi := (s.hi * 2 + carry0) % DWORD;
    var rem := (s.rem * 2 + carry1) % DWORD;
    if rem >= divisor then Registers((lo + 1) % DWORD, hi, rem - divisor) else Registers(lo, hi, rem)
  }

  function Rounds(s: Registers, divisor: nat, n: nat): (t: Registers)
    requires Valid(s)
    ensures Valid(t)
    decreases n, s
  {
    if n == 0 then s else Round(Rounds(s, divisor, n - 1), divisor)
  }

  function Load(dividend: nat): (s: Registers)
    requires dividend < QWORD
    ensures Valid(s) && Dividend(s) == dividend && s.rem == 0
  {
    Registers(dividend % DWORD, dividend / DWORD, 0)
  }

  /** rem:dividend read as one 96-bit number. */
  function Total(s: Registers): nat {
    s.rem * QWORD + Dividend(s)
  }

  function Pow2(n: nat): (p: nat)
    ensures p > 0
  {
    if n == 0 then 1 else 2 * Pow2(n - 1)
  }

  lemma {:induction false} Pow2Double(n: nat)
    ensures Pow2(2 * n) == Pow2(n) * Pow2(n)
  {
    if n > 0 {
      Pow2Double(n - 1);
      assert Pow2(2 * n) == 2 * Pow2(2 * n - 1) == 4 * Pow2(2 * (n - 1));
      Quadruple(Pow2(n - 1));
    }
  }

  lemma Quadruple(p: int)
    ensures (2 * p) * (2 * p) == 4 * (p * p)
  {}

  lemma Pow2Of64()
    ensures Pow2(63) == 0x8000_0000_0000_0000 && Pow2(64) == QWORD
  {
    assert Pow2(2) == 4;
    Pow2Double(2);
    Pow2Double(4);
    Pow2Double(8);
    Pow2Double(16);
    Pow2Double(32);
    assert Pow2(64) == 2 * Pow2(63);
  }

  /** Shifting rem:dividend left by one doubles it unless bit 31 of Rem is set. */
  lemma RoundTotal(s: Registers, d: nat) returns (bit: nat)
    requires Valid(s) && s.rem < d && s.rem < 0x8000_0000
    ensures bit <= 1 && Round(s, d).rem < d
    ensures Total(Round(s, d)) == 2 * Total(s) - bit * (d * QWORD - 1)
    ensures bit == 1 <==> 2 * Total(s) >= d * QWORD
  {
    hide Round;
    var t := ShiftedTotal(s, d);
    bit := if t.rem >= d then 1 else 0;
  }

  /** The registers after the shift hold twice the total, and the round goes on from them. */
  lemma ShiftedTotal(s: Registers, d: nat) returns (t: Registers)
    requires Valid(s) && s.rem < d && s.rem < 0x8000_0000
    ensures Valid(t) && Total(t) == 2 * Total(s) && t.lo + 1 < DWORD && t.rem < 2 * d
    ensures Round(s, d) == if t.rem >= d then Registers(t.lo + 1, t.hi, t.rem - d) else t
  {
    hide Round, Total, Dividend;
    var carry0, carry1 := s.lo / 0x8000_0000, s.hi / 0x8000_0000;
    DoubledWord(s.lo, 0);
    DoubledWord(s.hi, carry0);
    DoubledWord(s.rem, carry1);
    t := Registers(s.lo * 2 % DWORD, (s.hi * 2 + carry0) % DWORD, s.rem * 2 + carry1);
    TotalDoubles(s, t, carry0, carry1);
    RoundParts(s, t, d);
  }

  lemma TotalDoubles(s: Registers, t: Registers, carry0: nat, carry1: nat)
    requires 2 * s.lo == t.lo + carry0 * DWORD && 2 * s.hi + carry0 == t.hi + carry1 * DWORD
    requires t.rem == 2 * s.rem + carry1
    ensures Total(t) == 2 * Total(s)
  {
  }

  /** Doubling a dword with a carry in gives the dword shifted and its top bit as carry out. */
  lemma DoubledWord(x: nat, c: nat)
    requires x < DWORD && c <= 1
    ensures x / 0x8000_0000 <= 1 && 2 * x + c == (x * 2 + c) % DWORD + x / 0x8000_0000 * DWORD
    ensures c == 0 ==> (x * 2) % DWORD + 1 < DWORD
  {
    var top := x / 0x8000_0000;
    assert x == top * 0x8000_0000 + x % 0x8000_0000;
    assert x * 2 + c == top * DWORD + (x % 0x8000_0000 * 2 + c);
  }

  /** n rounds with a divisor of at most 2^31: the quotient bits gathered in the
      dividend account exactly for the divisors subtracted. */
  lemma {:induction false} RoundsTotal(s: Registers, d: nat, n: nat) returns (q: nat)
    requires Valid(s) && s.rem < d <= 0x8000_0000
    ensures q < Pow2(n) && Rounds(s, d, n).rem < d
    ensures Total(Rounds(s, d, n)) == Pow2(n) * Total(s) - q * (d * QWORD - 1)
    decreases n
  {
    hide Round, Total;
    if n == 0 {
      q := 0;
    } else {
      var q' := RoundsTotal(s, d, n - 1);
      var bit := RoundTotal(Rounds(s, d, n - 1), d);
      q := 2 * q' + bit;
      Double(Pow2(n - 1), Total(s), q', d * QWORD - 1, bit);
    }
  }

  lemma Double(p: int, t: int, q: int, e: int, bit: int)
    ensures 2 * (p * t - q * e) - bit * e == (2 * p) * t - (2 * q + bit) * e
  {}

  lemma AllRoundsTotal(dividend: nat, d: nat) returns (q: nat, qd: nat)
    requires dividend < QWORD && 0 < d <= 0x8000_0000
    ensures q < QWORD && qd == q * d && Rounds(Load(dividend), d, 64).rem < d
    ensures Total(Rounds(Load(dividend), d, 64)) == QWORD * dividend - (QWORD * qd - q)
  {
    Pow2Of64();
    hide Rounds, Pow2;
    q := RoundsTotal(Load(dividend), d, 64);
    qd := q * d;
    Regroup(q, d, QWORD);
  }

  /** The loop divides whenever the divisor is at most 2^31. */
  lemma DivisionExact(dividend: nat, d: nat)
    requires dividend < QWORD && 0 < d <= 0x8000_0000
    ensures Dividend(Rounds(Load(dividend), d, 64)) == dividend / d
    ensures Rounds(Load(dividend), d, 64).rem == dividend % d
  {
    var s := Rounds(Load(dividend), d, 64);
    var q, qd := AllRoundsTotal(dividend, d);
    Settle(s.rem, Dividend(s), dividend, q, qd);
    QuotientUnique(dividend, d, q, s.rem);
  }

  lemma Regroup(q: int, d: int, m: int)
    ensures q * (d * m - 1) == m * (q * d) - q
  {}

  lemma Settle(rem: nat, v: nat, dividend: nat, q: nat, qd: nat)
    requires rem * QWORD + v == QWORD * dividend - (QWORD * qd - q)
    requires v < QWORD && q < QWORD
    ensures v == q && dividend == qd + rem
  {}

  lemma MulGap(a: nat, b: nat, d: nat)
    requires a > b
    ensures a * d >= b * d + d
  {
    var k := a - b - 1;
    assert a * d == (b + 1 + k) * d == (b + 1) * d + k * d;
  }

  lemma QuotientUnique(x: nat, d: nat, q: nat, r: nat)
    requires d > 0 && r < d && x == q * d + r
    ensures q == x / d && r == x % d
  {
    var q' := x / d;
    assert x == q' * d + x % d;
    if q > q' {
      MulGap(q, q', d);
    } else if q < q' {
      MulGap(q', q, d);
    }
  }

  /** While the doubled total stays below the divisor, rounds only shift. */
  lemma {:induction false} RoundsShift(s: Registers, d: nat, n: nat)
    requires Valid(s) && d < DWORD && Pow2(n) * Total(s) < d * QWORD
    ensures Total(Rounds(s, d, n)) == Pow2(n) * Total(s)
    decreases n
  {
    if n > 0 {
      var t := Rounds(s, d, n - 1);
      assert Pow2(n) * Total(s) == 2 * (Pow2(n - 1) * Total(s)) by {
        Double(Pow2(n - 1), Total(s), 0, 0, 0);
      }
      RoundsShift(s, d, n - 1);
      assert 2 * Total(t) < d * QWORD;
      var bit := RoundTotal(t, d);
    }
  }

  /** A divisor above 2^31 is divided wrongly for at least one dividend. */
  lemma DivisionWrong(d: nat) returns (dividend: nat)
    requires 0x8000_0000 < d < DWORD
    ensures dividend < QWORD
    ensures Dividend(Rounds(Load(dividend), d, 64)) != dividend / d
  {
    dividend := 2 * (d - 1);
    var s := Load(dividend);
    Pow2Of64();
    RoundsShift(s, d, 63);
    var t := Rounds(s, d, 63);
    assert t.rem * QWORD + Dividend(t) == (d - 1) * QWORD;
    LastRoundWrong(t, d);
    assert Rounds(s, d, 64) == Round(t, d);
    QuotientUnique(dividend, d, 1, d - 2);
  }

  lemma LastRoundWrong(t: Registers, d: nat)
    requires Valid(t) && 0x8000_0000 < d < DWORD && Total(t) == (d - 1) * QWORD
    ensures Dividend(Round(t, d)) == 0
  {
    assert t.rem == d - 1 && t.hi == 0 && t.lo == 0;
  }

  /** DivU64x32 is division exactly for the divisors 1 to 2^31; the source
      promises it up to 2^31 - 1. */
  lemma DivisionRange(d: nat)
    requires 0 < d < DWORD
    ensures d <= 0x8000_0000 <==>
            forall x: nat {:trigger Load(x)} | x < QWORD ::
              Dividend(Rounds(Load(x), d, 64)) == x / d && Rounds(Load(x), d, 64).rem == x % d
  {
    if d <= 0x8000_0000 {
      forall x: nat | x < QWORD
        ensures Dividend(Rounds(Load(x), d, 64)) == x / d && Rounds(Load(x), d, 64).rem == x % d
      {
        DivisionExact(x, d);
      }
    } else {
      var x := DivisionWrong(d);
      assert Load(x).rem == 0;
    }
  }

  method DivU64x32(dividend: nat, divisor: nat) returns (quotient: nat, remainder: nat)
    requires dividend < QWORD && 0 < divisor < DWORD
    ensures quotient == Dividend(Rounds(Load(dividend), divisor, 64))
    ensures remainder == Rounds(Load(dividend), divisor, 64).rem
    ensures divisor <= 0x8000_0000 ==> quotient == dividend / divisor && remainder == dividend % divisor
  {
    ghost var start := Load(dividend);
    var lo: nat, hi: nat, rem: nat := dividend % DWORD, dividend / DWORD, 0;
    var bit := 0;
    while bit < 64
      invariant 0 <= bit <= 64
      invariant lo < DWORD && hi < DWORD && rem < DWORD
      invariant Registers(lo, hi, rem) == Rounds(start, divisor, bit)
    {
      lo, hi, rem := ShiftSubtract(lo, hi, rem, divisor);
      bit := bit + 1;
    }
    quotient, remainder := hi * DWORD + lo, rem;
    if divisor <= 0x8000_0000 {
      DivisionExact(dividend, divisor);
    }
  }

  /** A carry flag as a number. */
  function Flag(carry: bool): nat {
    if carry then 1 else 0
  }

  /** Bitwise and. */
  function And(x: nat, y: nat): nat {
    if x == 0 || y == 0 then 0 else x % 2 * (y % 2) + 2 * And(x / 2, y / 2)
  }

  lemma {:induction false} AndOnes(n: nat, y: nat)
    requires y < Pow2(n)
    ensures And(Pow2(n) - 1, y) == y
  {
    if n > 0 && y > 0 {
      AndOnes(n - 1, y / 2);
      assert (Pow2(n) - 1) % 2 == 1 && (Pow2(n) - 1) / 2 == Pow2(n - 1) - 1;
    }
  }

  lemma Pow2Of32()
    ensures Pow2(32) == DWORD
  {
    assert Pow2(2) == 4;
    hide Pow2;
    Pow2Double(2);
    Pow2Double(4);
    Pow2Double(8);
    Pow2Double(16);
  }

  /** What subtracting a register from itself with borrow leaves: all ones or zero. */
  function Borrow(carry: bool): nat {
    (0 - Flag(carry)) % DWORD
  }

  /** That mask selects the divisor or nothing, and subtracting it adds the carry. */
  lemma MaskSelects(carry: bool, divisor: nat, x: nat)
    requires divisor < DWORD && x < DWORD
    ensures And(Borrow(carry), divisor) == if carry then divisor else 0
    ensures (x - Borrow(carry)) % DWORD == (x + Flag(carry)) % DWORD
  {
    hide And, Pow2;
    assert Borrow(carry) == if carry then DWORD - 1 else 0;
    if carry {
      Pow2Of32();
      AndOnes(32, divisor);
      assert x - (DWORD - 1) == (x + 1) - DWORD;
    } else {
      AndNothing(divisor);
    }
  }

  lemma AndNothing(y: nat)
    ensures And(0, y) == 0
  {
  }

  /** The first three instructions shift rem:dividend left by one, through the carry flag. */
  method ShiftLeft(lo: nat, hi: nat, rem: nat) returns (lo': nat, hi': nat, rem': nat)
    requires lo < DWORD && hi < DWORD && rem < DWORD
    ensures lo' < DWORD && hi' < DWORD && rem' < DWORD
    ensures ShiftedFrom(Registers(lo, hi, rem), Registers(lo', hi', rem'))
  {
    // shll $1, Dividend
    var carry := lo >= 0x8000_0000;
    lo' := lo * 2 % DWORD;
    // rcll $1, Dividend + 4
    var out := hi >= 0x8000_0000;
    hi' := (hi * 2 + Flag(carry)) % DWORD;
    carry := out;
    // rcll $1, Rem
    rem' := (rem * 2 + Flag(carry)) % DWORD;
  }

  /** The other seven subtract the divisor from Rem when it fits, and then set the low bit, without a branch. */
  method CompareSubtract(lo: nat, rem: nat, divisor: nat) returns (lo': nat, rem': nat)
    requires lo < DWORD && rem < DWORD && divisor < DWORD
    ensures rem >= divisor ==> lo' == (lo + 1) % DWORD && rem' == rem - divisor
    ensures rem < divisor ==> lo' == lo && rem' == rem
  {
    hide And, Borrow;
    // mov Rem, eax; cmp Divisor, eax; cmc
    var carry := rem < divisor;
    carry := !carry;
    // sbb eax, eax
    var eax := Borrow(carry);
    MaskSelects(carry, divisor, lo);
    // sub eax, Dividend
    lo' := (lo - eax) % DWORD;
    // and Divisor, eax; sub eax, Rem
    eax := And(eax, divisor);
    rem' := (rem - eax) % DWORD;
  }

  /** Each dword doubled, with the top bit of the one below carried in. */
  predicate ShiftedFrom(s: Registers, t: Registers) {
    && t.lo == s.lo * 2 % DWORD && t.hi == (s.hi * 2 + s.lo / 0x8000_0000) % DWORD
    && t.rem == (s.rem * 2 + s.hi / 0x8000_0000) % DWORD
  }

  lemma RoundParts(s: Registers, t: Registers, d: nat)
    requires Valid(s) && Valid(t) && ShiftedFrom(s, t)
    ensures Round(s, d) == if t.rem >= d then Registers((t.lo + 1) % DWORD, t.hi, t.rem - d) else t
  {
  }

  /**
   * The body of the loop. It performs one round; while Rem is below the divisor and below 2^31, that doubles
   * rem:dividend and moves one quotient bit from Rem into the dividend.
   */
  method ShiftSubtract(lo: nat, hi: nat, rem: nat, divisor: nat) returns (lo': nat, hi': nat, rem': nat)
    requires lo < DWORD && hi < DWORD && rem < DWORD && divisor < DWORD
    ensures Registers(lo', hi', rem') == Round(Registers(lo, hi, rem), divisor)
    ensures lo' < DWORD && hi' < DWORD && rem' < DWORD
    ensures rem < divisor && rem < 0x8000_0000 ==>
            rem' < divisor &&
            Total(Registers(lo', hi', rem')) == Doubled(Total(Registers(lo, hi, rem)), divisor)
  {
    hide Round, Dividend, Total, Doubled, ShiftedFrom;
    lo', hi', rem' := ShiftLeft(lo, hi, rem);
    RoundParts(Registers(lo, hi, rem), Registers(lo', hi', rem'), divisor);
    lo', rem' := CompareSubtract(lo', rem', divisor);
    if rem < divisor && rem < 0x8000_0000 {
      RoundDoubles(Registers(lo, hi, rem), divisor);
    }
  }

  /** Twice the total, with one divisor taken out of the remainder part and counted, when it fits. */
  function Doubled(total: nat, divisor: nat): int {
    if 2 * total >= divisor * QWORD then 2 * total - divisor * QWORD + 1 else 2 * total
  }

  lemma RoundDoubles(s: Registers, d: nat)
    requires Valid(s) && s.rem < d && s.rem < 0x8000_0000
    ensures Round(s, d).rem < d && Total(Round(s, d)) == Doubled(Total(s), d)
  {
    hide Round, Total;
    var _ := RoundTotal(s, d);
  }
}
