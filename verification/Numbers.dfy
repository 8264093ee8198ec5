/** ValueToHex and ValueToString of gnu-efi/lib/print.c, tied to the positional
    digits of the value they print. */
module Numbers {
  import opened Common
  import opened Division
  import opened Chars

  // ---- Positional notation --------------------------------------------------

  datatype Base = Ten | Sixteen

  function Radix(b: Base): nat {
    if b == Ten then 10 else 16
  }

  /** v followed by one more digit. */
  function Append(b: Base, v: nat, d: nat): nat {
    if b == Ten then v * 10 + d else v * 16 + d
  }

  function Quotient(b: Base, v: nat): (q: nat)
    ensures v > 0 ==> q < v
    ensures Append(b, q, LastDigit(b, v)) == v
  {
    if b == Ten then v / 10 else v / 16
  }

  function LastDigit(b: Base, v: nat): (d: nat)
    ensures d < Radix(b)
  {
    if b == Ten then v % 10 else v % 16
  }

  /** Value of a digit string, most significant digit first. */
  function Value(b: Base, ds: seq<nat>): nat {
    if ds == [] then 0 else Append(b, Value(b, ds[..|ds| - 1]), ds[|ds| - 1])
  }

  predicate Below(ds: seq<nat>, n: nat) {
    forall i | 0 <= i < |ds| :: ds[i] < n
  }

  /** The digits of v without leading zeros; none for 0. */
  function Digits(b: Base, v: nat): (ds: seq<nat>)
    ensures Below(ds, Radix(b))
    decreases v
  {
    if v == 0 then [] else Digits(b, Quotient(b, v)) + [LastDigit(b, v)]
  }

  lemma {:induction false} ValueOfDigits(b: Base, v: nat)
    ensures Value(b, Digits(b, v)) == v
    decreases v
  {
    if v > 0 {
      ValueOfDigits(b, Quotient(b, v));
      assert Digits(b, v)[..|Digits(b, v)| - 1] == Digits(b, Quotient(b, v));
    }
  }

  function Power(b: Base, n: nat): nat {
    if n == 0 then 1 else Append(b, Power(b, n - 1), 0)
  }

  lemma {:induction false} DigitCount(b: Base, v: nat, n: nat)
    requires v < Power(b, n)
    ensures |Digits(b, v)| <= n
    decreases n
  {
    if v > 0 {
      DigitCount(b, Quotient(b, v), n - 1);
    }
  }

  lemma NoDigits()
    ensures Digits(Ten, 0) == [] && Digits(Sixteen, 0) == []
  {}

  lemma DigitBounds()
    ensures Power(Sixteen, 16) == QWORD
    ensures Power(Ten, 19) == 10_000_000_000_000_000_000
  {
    assert Power(Sixteen, 8) == DWORD;
    assert Power(Ten, 10) == 10_000_000_000;
  }

  lemma HexLength(v: nat)
    requires v < QWORD
    ensures |Digits(Sixteen, v)| <= 16
  {
    DigitBounds();
    hide Power, Digits;
    DigitCount(Sixteen, v, 16);
  }

  lemma DecLength(v: nat)
    requires v <= 0x8000_0000_0000_0000
    ensures |Digits(Ten, v)| <= 19
  {
    DigitBounds();
    hide Power, Digits;
    DigitCount(Ten, v, 19);
  }

  // ---- Characters -----------------------------------------------------------

  function HexChar(d: nat): Char16
    requires d < 16
  {
    if d < 10 then ZERO + d as Char16 else UPPER_A + (d - 10) as Char16
  }

  function HexText(v: nat): seq<Char16> {
    if v == 0 then [ZERO] else HexChars(Digits(Sixteen, v))
  }

  function HexChars(ds: seq<nat>): (s: seq<Char16>)
    requires Below(ds, 16)
    ensures |s| == |ds|
  {
    seq(|ds|, i requires 0 <= i < |ds| => HexChar(ds[i]))
  }

  function DecChar(d: nat): Char16
    requires d < 10
  {
    ZERO + d as Char16
  }

  function DecChars(ds: seq<nat>): (s: seq<Char16>)
    requires Below(ds, 10)
    ensures |s| == |ds|
  {
    seq(|ds|, i requires 0 <= i < |ds| => DecChar(ds[i]))
  }

  /** Digits in groups of three counted from the right, a comma between groups. */
  function Grouped(ds: seq<nat>): seq<Char16>
    requires Below(ds, 10)
  {
    if |ds| <= 3 then DecChars(ds)
    else Grouped(ds[..|ds| - 3]) + [COMMA] + DecChars(ds[|ds| - 3..])
  }

  function MagnitudeText(comma: bool, v: nat): seq<Char16> {
    if comma then Grouped(Digits(Ten, v)) else DecChars(Digits(Ten, v))
  }

  function DecText(comma: bool, v: int): seq<Char16> {
    if v == 0 then [ZERO]
    else if v < 0 then [MINUS] + MagnitudeText(comma, -v)
    else MagnitudeText(comma, v)
  }

  // ---- What the texts say, digit by digit -----------------------------------

  lemma DivideTwice(v: nat, r: nat, p: nat)
    requires r > 0 && p > 0
    ensures r * p > 0 && v / (r * p) == v / r / p
  {
    var q, m := v / r, v % r;
    var t, u := q / p, q % p;
    assert v == r * q + m && q == p * t + u;
    assert r * q == r * (p * t) + r * u;
    assert r * (p * t) == (r * p) * t;
    MulStep(r, u, p);
    QuotientIs(v, r * p, t, r * u + m);
  }

  lemma MulMonotone(r: nat, x: nat, y: nat)
    requires x <= y
    ensures r * x <= r * y
  {}

  lemma QuotientIs(v: nat, d: nat, t: nat, rest: nat)
    requires d > 0 && v == d * t + rest && rest < d
    ensures v / d == t
  {
    var q := v / d;
    assert v == d * q + v % d;
    if q < t {
      MulStep(d, q, t);
    } else if t < q {
      MulStep(d, t, q);
    }
  }

  lemma MulStep(d: nat, x: nat, y: nat)
    requires x < y
    ensures d * x + d <= d * y
  {
    MulMonotone(d, x + 1, y);
    assert d * (x + 1) == d * x + d;
  }

  lemma PowerPositive(b: Base, n: nat)
    ensures Power(b, n) > 0
  {}

  /** Digit k of v, counted from the right. */
  lemma {:induction false} DigitAt(b: Base, v: nat, k: nat)
    requires k < |Digits(b, v)|
    ensures Power(b, k) > 0 && Digits(b, v)[|Digits(b, v)| - 1 - k] == v / Power(b, k) % Radix(b)
    decreases k
  {
    PowerPositive(b, k);
    assert v > 0 && Digits(b, v) == Digits(b, Quotient(b, v)) + [LastDigit(b, v)];
    DividedBy(b, v);
    PowerStep(b, k);
    hide Digits, Power, Radix, Quotient, LastDigit;
    if k > 0 {
      PowerPositive(b, k - 1);
      DigitAt(b, Quotient(b, v), k - 1);
      DivideTwice(v, Radix(b), Power(b, k - 1));
    }
  }

  lemma DividedBy(b: Base, v: nat)
    ensures Radix(b) > 0 && Quotient(b, v) == v / Radix(b) && LastDigit(b, v) == v % Radix(b) == v / 1 % Radix(b)
  {}

  lemma PowerStep(b: Base, k: nat)
    ensures Power(b, k) == if k == 0 then 1 else Radix(b) * Power(b, k - 1)
  {}

  /** As many digits as it takes, and no more. */
  lemma {:induction false} DigitsNeeded(b: Base, v: nat)
    requires v > 0
    ensures Digits(b, v) != []
    ensures Power(b, |Digits(b, v)| - 1) <= v < Power(b, |Digits(b, v)|)
    decreases v
  {
    if Quotient(b, v) > 0 {
      DigitsNeeded(b, Quotient(b, v));
    } else {
      assert Digits(b, Quotient(b, v)) == [];
    }
  }

  /** Character k from the right of the hexadecimal text: 0 to 9 or A to F for the digit of weight 16^k. */
  lemma HexTextAt(v: nat, k: nat)
    requires k < |HexText(v)|
    ensures Power(Sixteen, k) > 0
    ensures var d, c := v / Power(Sixteen, k) % 16, HexText(v)[|HexText(v)| - 1 - k] as nat;
      c == if d < 10 then 0x30 + d else 0x41 + (d - 10)
    ensures v < Power(Sixteen, |HexText(v)|) && (|HexText(v)| > 1 ==> Power(Sixteen, |HexText(v)| - 1) <= v)
  {
    if v > 0 {
      DigitAt(Sixteen, v, k);
      DigitsNeeded(Sixteen, v);
    }
  }

  /** Character k from the right of the decimal text without commas: the digit of weight 10^k. */
  lemma DecTextAt(v: nat, k: nat)
    requires k < |DecText(false, v)|
    ensures Power(Ten, k) > 0 && DecText(false, v)[|DecText(false, v)| - 1 - k] as nat == 0x30 + v / Power(Ten, k) % 10
    ensures v < Power(Ten, |DecText(false, v)|)
    ensures |DecText(false, v)| > 1 ==> Power(Ten, |DecText(false, v)| - 1) <= v
  {
    if v > 0 {
      DigitAt(Ten, v, k);
      DigitsNeeded(Ten, v);
    }
  }

  /** A negative number: a minus sign and the text of its magnitude. */
  lemma NegativeText(comma: bool, v: int)
    requires v < 0
    ensures DecText(comma, v) == [0x2D] + DecText(comma, -v)
  {}

  // ---- Printing -------------------------------------------------------------

  /** Memory b with text and a terminator stored from `start` on. */
  function Written(b: seq<Char16>, start: nat, text: seq<Char16>): (r: seq<Char16>)
    requires start + |text| < |b|
    ensures |r| == |b|
  {
    b[..start] + text + [0] + b[start + |text| + 1..]
  }

  /** The first loop: digits of v, least significant first. */
  method HexBackwards(str: array<Char16>, v: nat) returns (p1: nat)
    requires v < QWORD && str.Length >= 16
    modifies str
    ensures p1 == |Digits(Sixteen, v)| <= str.Length
    ensures forall i | 0 <= i < p1 :: str[i] == HexChar(Digits(Sixteen, v)[p1 - 1 - i])
  {
    hide Digits, HexChar;
    HexLength(v);
    NoDigits();
    ghost var ds := Digits(Sixteen, v);
    var rest: nat := v;
    p1 := 0;
    assert ds[..|ds|] == ds;
    while rest != 0
      invariant 0 <= p1 <= |ds|
      invariant ds[..|ds| - p1] == Digits(Sixteen, rest)
      invariant forall i | 0 <= i < p1 :: str[i] == HexChar(ds[|ds| - 1 - i])
    {
      DigitsStep(Sixteen, rest, ds, p1);
      str[p1] := HexChar(rest % 16);
      p1, rest := p1 + 1, rest / 16;
    }
  }

  lemma DigitsStep(b: Base, rest: nat, ds: seq<nat>, k: nat)
    requires rest > 0 && k <= |ds| && ds[..|ds| - k] == Digits(b, rest)
    ensures k < |ds| && ds[|ds| - 1 - k] == LastDigit(b, rest)
    ensures ds[..|ds| - (k + 1)] == Digits(b, Quotient(b, rest))
  {
    var head := ds[..|ds| - k];
    assert head == Digits(b, Quotient(b, rest)) + [LastDigit(b, rest)];
    assert head[|head| - 1] == ds[|ds| - 1 - k];
    assert ds[..|ds| - (k + 1)] == head[..|head| - 1];
  }

  /** The text of zero, which has no digits of its own. */
  method StoreZero(buffer: array<Char16>)
    requires buffer.Length > 1
    modifies buffer
    ensures buffer[..] == Written(old(buffer[..]), 0, [ZERO])
  {
    buffer[0] := ZERO;
    buffer[1] := 0;
  }

  /** The second loop: copy str backwards and terminate. */
  method StoreReversed(buffer: array<Char16>, str: array<Char16>, n: nat, ghost text: seq<Char16>)
    requires buffer != str && n == |text| <= str.Length && n < buffer.Length
    requires forall i | 0 <= i < n :: str[i] == text[n - 1 - i]
    modifies buffer
    ensures buffer[..] == Written(old(buffer[..]), 0, text)
  {
    var p1, p2 := n, 0;
    while p1 != 0
      invariant 0 <= p1 <= n && p2 == n - p1
      invariant forall i | 0 <= i < p2 :: buffer[i] == text[i]
      invariant forall i | p2 <= i < buffer.Length :: buffer[i] == old(buffer[i])
    {
      p1 := p1 - 1;
      buffer[p2] := str[p1];
      p2 := p2 + 1;
    }
    buffer[p2] := 0;
  }

  lemma WrittenParts(b: seq<Char16>, text: seq<Char16>)
    requires |text| < |b|
    ensures var w, n := Written(b, 0, text), |text|; w[..n] == text && w[n] == 0 && w[n + 1..] == b[n + 1..]
  {}

  method ValueToHex(buffer: array<Char16>, v: nat)
    requires v < QWORD && buffer.Length > |HexText(v)|
    modifies buffer
    ensures buffer[..] == Written(old(buffer[..]), 0, HexText(v))
    ensures var n := |HexText(v)|;
      buffer[..n] == HexText(v) && buffer[n] == 0 && buffer[n + 1..] == old(buffer[n + 1..])
  {
    hide Written;
    WrittenParts(old(buffer[..]), HexText(v));
    if v == 0 {
      StoreZero(buffer);
    } else {
      var str := new Char16[30](_ => 0);
      var p1 := HexBackwards(str, v);
      StoreReversed(buffer, str, p1, HexChars(Digits(Sixteen, v)));
    }
  }

  /** The first k digits of ds as the second loop writes them: a comma before
      every digit, but the first, that has a multiple of three from it on. */
  function Emitted(comma: bool, ds: seq<nat>, k: nat): seq<Char16>
    requires k <= |ds| && Below(ds, 10)
  {
    if k == 0 then [] else
      Emitted(comma, ds, k - 1) +
      (if comma && k > 1 && (|ds| - (k - 1)) % 3 == 0 then [COMMA] else []) +
      [DecChar(ds[k - 1])]
  }

  lemma {:induction false} EmittedPrefix(ds: seq<nat>, k: nat)
    requires |ds| > 3 && k <= |ds| - 3 && Below(ds, 10)
    ensures Emitted(true, ds, k) == Emitted(true, ds[..|ds| - 3], k)
  {
    if k > 0 {
      EmittedPrefix(ds, k - 1);
    }
  }

  lemma {:induction false} EmittedPlain(ds: seq<nat>, k: nat)
    requires k <= |ds| && Below(ds, 10)
    ensures Emitted(false, ds, k) == DecChars(ds)[..k]
  {
    if k > 0 {
      EmittedPlain(ds, k - 1);
      assert DecChars(ds)[..k] == DecChars(ds)[..k - 1] + [DecChar(ds[k - 1])];
    }
  }

  lemma {:induction false} EmittedGrouped(ds: seq<nat>)
    requires Below(ds, 10)
    ensures Emitted(true, ds, |ds|) == Grouped(ds)
  {
    var n := |ds|;
    if n <= 3 {
      EmittedShort(ds, n);
    } else {
      EmittedPrefix(ds, n - 3);
      EmittedGrouped(ds[..n - 3]);
      EmittedLastGroup(ds);
    }
  }

  lemma {:induction false} EmittedShort(ds: seq<nat>, k: nat)
    requires |ds| <= 3 && k <= |ds| && Below(ds, 10)
    ensures Emitted(true, ds, k) == DecChars(ds)[..k]
  {
    if k > 0 {
      EmittedShort(ds, k - 1);
      assert DecChars(ds)[..k] == DecChars(ds)[..k - 1] + [DecChar(ds[k - 1])];
    }
  }

  lemma JoinGroup(e: seq<Char16>, a: Char16, b: Char16, c: Char16)
    ensures e + [COMMA] + [a] + [] + [b] + [] + [c] == e + [COMMA] + [a, b, c]
  {}

  lemma EmittedLastGroup(ds: seq<nat>)
    requires |ds| > 3 && Below(ds, 10)
    ensures Emitted(true, ds, |ds|) == Emitted(true, ds, |ds| - 3) + [COMMA] + DecChars(ds[|ds| - 3..])
  {
    var n, e := |ds|, Emitted(true, ds, |ds| - 3);
    var a, b, c := DecChar(ds[n - 3]), DecChar(ds[n - 2]), DecChar(ds[n - 1]);
    var e1 := Emitted(true, ds, n - 2);
    var e2 := Emitted(true, ds, n - 1);
    assert e1 == e + [COMMA] + [a];
    assert e2 == e1 + [] + [b];
    assert Emitted(true, ds, n) == e2 + [] + [c];
    assert DecChars(ds[n - 3..]) == [a, b, c];
    JoinGroup(e, a, b, c);
  }

  lemma EmittedAll(comma: bool, ds: seq<nat>)
    requires Below(ds, 10)
    ensures Emitted(comma, ds, |ds|) == if comma then Grouped(ds) else DecChars(ds)
  {
    EmittedGrouped(ds);
    EmittedPlain(ds, |ds|);
  }

  lemma {:induction false} EmittedGrows(comma: bool, ds: seq<nat>, k: nat)
    requires k <= |ds| && Below(ds, 10)
    ensures |Emitted(comma, ds, k)| <= |Emitted(comma, ds, |ds|)|
    decreases |ds| - k
  {
    if k < |ds| {
      EmittedGrows(comma, ds, k + 1);
    }
  }

  lemma EmittedNone(comma: bool, ds: seq<nat>)
    requires Below(ds, 10)
    ensures Emitted(comma, ds, 0) == []
  {}

  lemma EmittedNext(comma: bool, ds: seq<nat>, k: nat)
    requires k < |ds| && Below(ds, 10)
    ensures Emitted(comma, ds, k + 1) ==
            if comma && k > 0 && (|ds| - k) % 3 == 0 then Emitted(comma, ds, k) + [COMMA] + [DecChar(ds[k])]
            else Emitted(comma, ds, k) + [DecChar(ds[k])]
  {}

  lemma CharOfDigit(d: nat)
    requires d < 10
    ensures DecChar(d) == ZERO + d as Char16
  {}

  method DivideByTen(v: nat) returns (q: nat, r: nat)
    requires v < QWORD
    ensures q == Quotient(Ten, v) && r == LastDigit(Ten, v)
  {
    q, r := DivU64x32(v, 10);
  }

  /** The digit loop of ValueToString; each digit comes from DivU64x32. */
  method DecBackwards(str: array<Char16>, v: nat) returns (p1: nat)
    requires v <= 0x8000_0000_0000_0000 && str.Length >= 19
    modifies str
    ensures p1 == |Digits(Ten, v)| <= 19
    ensures forall i | 0 <= i < p1 :: str[i] == DecChar(Digits(Ten, v)[p1 - 1 - i])
  {
    hide Digits, Quotient, LastDigit, DecChar;
    DecLength(v);
    ghost var ds := Digits(Ten, v);
    var rest: nat := v;
    p1 := 0;
    NoDigits();
    assert ds[..|ds|] == ds;
    while rest != 0
      invariant 0 <= p1 <= |ds| && rest <= v
      invariant ds[..|ds| - p1] == Digits(Ten, rest)
      invariant forall i | 0 <= i < p1 :: str[i] == DecChar(ds[|ds| - 1 - i])
      decreases rest
    {
      DigitsStep(Ten, rest, ds, p1);
      var q, r := DivideByTen(rest);
      CharOfDigit(r);
      str[p1] := ZERO + r as Char16;
      p1, rest := p1 + 1, q;
    }
  }

  /** Counter of the comma loop before digit k of n: one more than the digits
      still to print before the next comma. */
  function Counter(comma: bool, n: nat, k: nat): nat
    requires k <= n && n <= 19
  {
    if !comma then 1000 - k
    else if k == 0 && n % 3 == 0 then 4
    else (n - k) % 3 + 1
  }

  /** The comma loop: write the digits held backwards in str from `start` on. */
  method WriteDigits(buffer: array<Char16>, start: nat, str: array<Char16>, n: nat, comma: bool, ghost ds: seq<nat>)
    requires buffer != str && 0 < n == |ds| <= 19 && n <= str.Length && Below(ds, 10)
    requires forall i | 0 <= i < n :: str[i] == DecChar(ds[n - 1 - i])
    requires start + |Emitted(comma, ds, n)| < buffer.Length
    modifies buffer
    ensures buffer[..] == Written(old(buffer[..]), start, Emitted(comma, ds, n))
  {
    hide Emitted, Written, Overwritten;
    ghost var before, t := buffer[..], Emitted(comma, ds, 0);
    NothingOverwritten(before, start);
    EmittedNone(comma, ds);
    var ca := [3, 1, 2];
    var p1, p2 := n, start;
    var c: nat := (if comma then ca[p1 % 3] else 999) + 1;
    while p1 != 0
      invariant 0 <= p1 <= n && t == Emitted(comma, ds, n - p1)
      invariant c == Counter(comma, n, n - p1)
      invariant p2 == start + |t| < buffer.Length && |before| == buffer.Length
      invariant buffer[..] == Overwritten(before, start, t)
    {
      ghost var k := n - p1;
      CounterStep(comma, n, k);
      EmittedGrows(comma, ds, k + 1);
      EmittedNext(comma, ds, k);
      c := c - 1;
      if c == 0 {
        PutAt(buffer, p2, COMMA, before, start, t);
        t := t + [COMMA];
        p2 := p2 + 1;
        c := 3;
      }
      p1 := p1 - 1;
      PutAt(buffer, p2, str[p1], before, start, t);
      t := t + [str[p1]];
      p2 := p2 + 1;
    }
    PutAt(buffer, p2, 0, before, start, t);
    TerminatedText(before, start, t);
  }

  /** Memory b with text stored from `start` on. */
  function Overwritten(b: seq<Char16>, start: nat, text: seq<Char16>): seq<Char16>
    requires start + |text| <= |b|
  {
    b[..start] + text + b[start + |text|..]
  }

  lemma NothingOverwritten(b: seq<Char16>, start: nat)
    requires start <= |b|
    ensures Overwritten(b, start, []) == b
  {}

  lemma TerminatedText(b: seq<Char16>, start: nat, text: seq<Char16>)
    requires start + |text| < |b|
    ensures Overwritten(b, start, text + [0]) == Written(b, start, text)
  {}

  /** Stores one character behind the text written so far. */
  method PutAt(buffer: array<Char16>, p: nat, c: Char16, ghost before: seq<Char16>, ghost start: nat,
               ghost t: seq<Char16>)
    requires p == start + |t| < buffer.Length == |before| && buffer[..] == Overwritten(before, start, t)
    modifies buffer
    ensures buffer[..] == Overwritten(before, start, t + [c])
  {
    buffer[p] := c;
  }

  lemma CounterStep(comma: bool, n: nat, k: nat)
    requires k < n <= 19
    ensures Counter(comma, n, k) >= 1
    ensures Counter(comma, n, k) == 1 <==> comma && k > 0 && (n - k) % 3 == 0
    ensures Counter(comma, n, k + 1) == if Counter(comma, n, k) == 1 then 3 else Counter(comma, n, k) - 1
  {}

  /** From the sign on; -v of the least INT64 is 2^63 once read as UINT64. */
  method StoreMagnitude(buffer: array<Char16>, p2: nat, comma: bool, v: nat)
    requires 0 < v <= 0x8000_0000_0000_0000
    requires p2 + |MagnitudeText(comma, v)| < buffer.Length
    modifies buffer
    ensures buffer[..] == Written(old(buffer[..]), p2, MagnitudeText(comma, v))
  {
    ghost var ds := Digits(Ten, v);
    EmittedAll(comma, ds);
    var str := new Char16[40](_ => 0);
    var p1 := DecBackwards(str, v);
    WriteDigits(buffer, p2, str, p1, comma, ds);
  }

  lemma WrittenSign(b: seq<Char16>, c: Char16, text: seq<Char16>)
    requires 1 + |text| < |b|
    ensures Written(b[0 := c], 1, text) == Written(b, 0, [c] + text)
  {}

  method ValueToString(buffer: array<Char16>, comma: bool, v: int)
    requires -0x8000_0000_0000_0000 <= v < 0x8000_0000_0000_0000
    requires buffer.Length > |DecText(comma, v)|
    modifies buffer
    ensures buffer[..] == Written(old(buffer[..]), 0, DecText(comma, v))
    ensures var n := |DecText(comma, v)|;
      buffer[..n] == DecText(comma, v) && buffer[n] == 0 && buffer[n + 1..] == old(buffer[n + 1..])
  {
    hide Written, MagnitudeText;
    WrittenParts(old(buffer[..]), DecText(comma, v));
    if v == 0 {
      StoreZero(buffer);
    } else if v < 0 {
      buffer[0] := MINUS;
      StoreMagnitude(buffer, 1, comma, -v);
      WrittenSign(old(buffer[..]), MINUS, MagnitudeText(comma, -v));
    } else {
      StoreMagnitude(buffer, 0, comma, v);
      assert DecText(comma, v) == MagnitudeText(comma, v);
    }
  }
}
