/** xtoi and Atoi of gnu-efi/lib/str.c, and the round trips with the printers. */
module NumberParsing {
  import opened Chars
  import opened Common
  import opened Division
  import opened Numbers

  // ---- Terminated strings ---------------------------------------------------

  /** The characters before the first NUL. */
  function Text(str: seq<Char16>): (t: seq<Char16>)
    requires 0 in str
  {
    if str[0] == 0 then [] else [str[0]] + Text(str[1..])
  }

  lemma TextStep(str: seq<Char16>, i: nat)
    requires i < |str| && 0 in str[i..] && str[i] != 0
    ensures 0 in str[i + 1..] && Text(str[i..]) == [str[i]] + Text(str[i + 1..])
  {
    assert str[i..][1..] == str[i + 1..];
  }

  lemma {:induction false} TextOfWritten(b: seq<Char16>, text: seq<Char16>)
    requires |text| < |b| && 0 !in text
    ensures 0 in Written(b, 0, text) && Text(Written(b, 0, text)) == text
  {
    var w := Written(b, 0, text);
    assert w[|text|] == 0;
    if text != [] {
      assert w[0] == text[0] && text[0] in text;
      TextOfWritten(b[1..], text[1..]);
      assert w[1..] == Written(b[1..], 0, text[1..]);
    }
  }

  // ---- What the parsers read ------------------------------------------------

  function SkipSpaces(s: seq<Char16>): seq<Char16> {
    if s != [] && s[0] == SPACE then SkipSpaces(s[1..]) else s
  }

  predicate IsDigit(b: Base, c: Char16) {
    ZERO <= c <= NINE || (b == Sixteen && (UPPER_A <= c <= UPPER_F || LOWER_A <= c <= LOWER_F))
  }

  function DigitOf(b: Base, c: Char16): nat
    requires IsDigit(b, c)
  {
    if c <= NINE then (c - ZERO) as nat
    else if c <= UPPER_F then (c - UPPER_A) as nat + 10
    else (c - LOWER_A) as nat + 10
  }

  /** The longest run of digits at the front of s. */
  function LeadingDigits(b: Base, s: seq<Char16>): seq<nat> {
    if s != [] && IsDigit(b, s[0]) then [DigitOf(b, s[0])] + LeadingDigits(b, s[1..]) else []
  }

  /** The number read from s, as a 64-bit UINTN. */
  function Parsed(b: Base, s: seq<Char16>): nat {
    Value(b, LeadingDigits(b, SkipSpaces(s))) % QWORD
  }

  lemma WrapAppend(b: Base, v: nat, d: nat)
    ensures Append(b, v % QWORD, d) % QWORD == Append(b, v, d) % QWORD
  {
    var k := v / QWORD;
    assert v == k * QWORD + v % QWORD;
    assert Append(b, v, d) == Append(b, v % QWORD, d) + (Radix(b) * k) * QWORD;
    WrapMultiple(Append(b, v % QWORD, d), Radix(b) * k);
  }

  lemma WrapMultiple(x: nat, k: nat)
    ensures (x + k * QWORD) % QWORD == x % QWORD
  {}

  lemma ValueAppend(b: Base, ds: seq<nat>, d: nat)
    ensures Value(b, ds + [d]) == Append(b, Value(b, ds), d)
  {
    assert (ds + [d])[..|ds|] == ds;
  }

  // ---- The two loops --------------------------------------------------------

  /** The shared first loop: index of the first character that is no space. */
  method SkipLeadingSpaces(str: seq<Char16>) returns (i: nat)
    requires 0 in str
    ensures i < |str| && 0 in str[i..]
    ensures Text(str[i..]) == SkipSpaces(Text(str))
  {
    i := 0;
    assert str[0..] == str;
    while str[i] != 0 && str[i] == SPACE
      invariant i < |str| && 0 in str[i..]
      invariant SkipSpaces(Text(str[i..])) == SkipSpaces(Text(str))
      decreases |str| - i
    {
      TextStep(str, i);
      i := i + 1;
    }
  }

  /** The digits ds have been read into u, and str[i..] holds the others of `all`. */
  ghost predicate Reading(b: Base, str: seq<Char16>, i: nat, ds: seq<nat>, all: seq<nat>, u: nat) {
    && i < |str| && 0 in str[i..]
    && all == ds + LeadingDigits(b, Text(str[i..]))
    && u == Value(b, ds) % QWORD
  }

  lemma ReadDigit(b: Base, str: seq<Char16>, i: nat, ds: seq<nat>, all: seq<nat>, u: nat)
    requires Reading(b, str, i, ds, all, u) && str[i] != 0 && IsDigit(b, str[i])
    ensures Reading(b, str, i + 1, ds + [DigitOf(b, str[i])], all, Append(b, u, DigitOf(b, str[i])) % QWORD)
  {
    var d := DigitOf(b, str[i]);
    TextStep(str, i);
    WrapAppend(b, Value(b, ds), d);
    ValueAppend(b, ds, d);
    assert Text(str[i..])[1..] == Text(str[i + 1..]);
    assert ds + ([d] + LeadingDigits(b, Text(str[i + 1..]))) == ds + [d] + LeadingDigits(b, Text(str[i + 1..]));
  }

  lemma ReadEnd(b: Base, str: seq<Char16>, i: nat, ds: seq<nat>, all: seq<nat>, u: nat)
    requires Reading(b, str, i, ds, all, u) && !IsDigit(b, str[i])
    ensures u == Value(b, all) % QWORD
  {
    if str[i] != 0 {
      TextStep(str, i);
    }
    assert ds + [] == ds;
  }

  lemma ReadBegin(b: Base, str: seq<Char16>, i: nat, all: seq<nat>)
    requires i < |str| && 0 in str[i..] && all == LeadingDigits(b, Text(str[i..]))
    ensures Reading(b, str, i, [], all, 0)
  {
    assert [] + all == all;
  }

  lemma InText(b: Base, str: seq<Char16>, i: nat, ds: seq<nat>, all: seq<nat>, u: nat)
    requires Reading(b, str, i, ds, all, u)
    ensures i < |str|
  {}

  /** The low four bits of u << 4 are clear, so the OR adds the digit. */
  lemma ShiftOr(u: nat, d: nat)
    requires d < 16
    ensures u * 16 % QWORD + d == Append(Sixteen, u, d) % QWORD
  {}

  /** The test and the subtraction that xtoi makes on a character decide and give the digit. */
  method HexDigit(char16: Char16) returns (hit: bool, d: nat)
    ensures hit <==> IsDigit(Sixteen, char16)
    ensures hit ==> d == DigitOf(Sixteen, char16) < 16
  {
    var c := char16;
    d := 0;
    if c >= LOWER_A && c <= LOWER_F {
      c := c - 0x20;
    }
    hit := (c >= ZERO && c <= NINE) || (c >= UPPER_A && c <= UPPER_F);
    if hit {
      d := (c - (if c >= UPPER_A then UPPER_A - 10 else ZERO)) as nat;
    }
  }

  method Xtoi(str: seq<Char16>) returns (u: nat)
    requires 0 in str
    ensures u == Parsed(Sixteen, Text(str))
    ensures forall n: nat, v: nat :: v < 0x1_0000_0000_0000_0000 && Text(str) == Spaces(n) + HexText(v) ==> u == v
  {
    hide Reading, LeadingDigits, Text, Value, IsDigit, DigitOf, SkipSpaces, Append, Spaces, HexText;
    HexBehindSpaces(Text(str));
    var i := SkipLeadingSpaces(str);
    ghost var ds: seq<nat> := [];
    ghost var all := LeadingDigits(Sixteen, Text(str[i..]));
    u := 0;
    ReadBegin(Sixteen, str, i, all);
    while str[i] != 0
      invariant i < |str| && Reading(Sixteen, str, i, ds, all, u)
      decreases |str| - i
    {
      var hit, d := HexDigit(str[i]);
      if hit {
        ReadDigit(Sixteen, str, i, ds, all, u);
        ShiftOr(u, d);
        ds := ds + [d];
        u := u * 16 % QWORD + d;
      } else {
        break;
      }
      i := i + 1;
      InText(Sixteen, str, i, ds, all, u);
    }
    NulIsNoDigit(Sixteen);
    ReadEnd(Sixteen, str, i, ds, all, u);
  }

  lemma NulIsNoDigit(b: Base)
    ensures !IsDigit(b, 0)
  {}

  lemma DecDigit(c: Char16)
    ensures IsDigit(Ten, c) <==> ZERO <= c <= NINE
    ensures IsDigit(Ten, c) ==> DigitOf(Ten, c) == (c - ZERO) as nat
  {}

  lemma TimesTen(u: nat, d: nat)
    ensures u * 10 + d == Append(Ten, u, d)
  {}

  method Atoi(str: seq<Char16>) returns (u: nat)
    requires 0 in str
    ensures u == Parsed(Ten, Text(str))
    ensures forall n: nat, v: nat :: v < 0x8000_0000_0000_0000 && Text(str) == Spaces(n) + DecText(false, v) ==> u == v
  {
    hide Reading, LeadingDigits, Text, Value, IsDigit, DigitOf, SkipSpaces, Append, Spaces, DecText;
    DecBehindSpaces(Text(str));
    var i := SkipLeadingSpaces(str);
    ghost var ds: seq<nat> := [];
    ghost var all := LeadingDigits(Ten, Text(str[i..]));
    u := 0;
    ReadBegin(Ten, str, i, all);
    while str[i] != 0
      invariant i < |str| && Reading(Ten, str, i, ds, all, u)
      decreases |str| - i
    {
      var c := str[i];
      DecDigit(c);
      if c >= ZERO && c <= NINE {
        ReadDigit(Ten, str, i, ds, all, u);
        TimesTen(u, (c - ZERO) as nat);
        ds := ds + [(c - ZERO) as nat];
        u := (u * 10 + (c - ZERO) as nat) % QWORD;
      } else {
        break;
      }
      i := i + 1;
      InText(Ten, str, i, ds, all, u);
    }
    NulIsNoDigit(Ten);
    ReadEnd(Ten, str, i, ds, all, u);
  }

  // ---- Round trips ----------------------------------------------------------

  lemma {:induction false} DigitsOfHexChars(ds: seq<nat>)
    requires Below(ds, 16)
    ensures LeadingDigits(Sixteen, HexChars(ds)) == ds
  {
    if ds != [] {
      DigitsOfHexChars(ds[1..]);
      assert HexChars(ds)[1..] == HexChars(ds[1..]);
    }
  }

  lemma {:induction false} DigitsOfDecChars(ds: seq<nat>, rest: seq<Char16>)
    requires Below(ds, 10) && (rest == [] || rest[0] == COMMA)
    ensures LeadingDigits(Ten, DecChars(ds) + rest) == ds
  {
    var s := DecChars(ds) + rest;
    if ds == [] {
      assert s == rest;
    } else {
      DigitsOfDecChars(ds[1..], rest);
      assert s[1..] == DecChars(ds[1..]) + rest;
    }
  }

  /** xtoi reads back what ValueToHex prints, for every UINT64. */
  lemma HexRoundTrip(v: nat)
    requires v < QWORD
    ensures 0 !in HexText(v) && Parsed(Sixteen, HexText(v)) == v
  {
    var s := HexText(v);
    if v == 0 {
      assert s[1..] == [];
      assert LeadingDigits(Sixteen, s) == [0];
      assert Value(Sixteen, [0]) == Append(Sixteen, Value(Sixteen, [0][..0]), 0);
    } else {
      DigitsOfHexChars(Digits(Sixteen, v));
      ValueOfDigits(Sixteen, v);
      assert SkipSpaces(s) == s;
    }
  }

  // ---- Spaces, case and the end of a number ---------------------------------

  function Spaces(n: nat): (s: seq<Char16>)
    ensures |s| == n
  {
    seq(n, _ => 0x20)
  }

  /** Spaces in front of a text do not change what is read from it. */
  lemma {:induction false} SpacesSkipped(b: Base, n: nat, s: seq<Char16>)
    ensures SkipSpaces(Spaces(n) + s) == SkipSpaces(s)
    ensures Parsed(b, Spaces(n) + s) == Parsed(b, s)
    decreases n
  {
    var t := Spaces(n) + s;
    if n == 0 {
      assert t == s;
    } else {
      assert t[0] == 0x20 && t[1..] == Spaces(n - 1) + s;
      SpacesSkipped(b, n - 1, s);
    }
  }

  /** The character c spells the digit d; hexadecimal letters may be of either case. */
  predicate Spells(b: Base, c: Char16, d: nat) {
    || (d < 10 && c as nat == 0x30 + d)
    || (b == Sixteen && 10 <= d < 16 && (c as nat == 0x41 + (d - 10) || c as nat == 0x61 + (d - 10)))
  }

  lemma SpelledDigit(b: Base, c: Char16)
    ensures IsDigit(b, c) <==> exists d: nat :: Spells(b, c, d)
    ensures forall d: nat :: Spells(b, c, d) ==> IsDigit(b, c) && DigitOf(b, c) == d
  {
    if IsDigit(b, c) {
      assert Spells(b, c, DigitOf(b, c));
    }
  }

  /**
   * Whatever the spaces in front, a run of characters that spell digits, up to one that spells none, is read as the
   * value of those digits.
   */
  lemma RunIsRead(b: Base, n: nat, cs: seq<Char16>, ds: seq<nat>, rest: seq<Char16>)
    requires |cs| == |ds| && forall i | 0 <= i < |cs| :: Spells(b, cs[i], ds[i])
    requires rest != [] ==> (cs != [] || rest[0] != 0x20) && forall d: nat :: !Spells(b, rest[0], d)
    ensures Parsed(b, Spaces(n) + (cs + rest)) == Value(b, ds) % 0x1_0000_0000_0000_0000
  {
    hide LeadingDigits, Value, Spells;
    SpacesSkipped(b, n, cs + rest);
    LeadingRun(b, cs, ds, rest);
    FirstIsNoSpace(b, cs, ds, rest);
  }

  lemma FirstIsNoSpace(b: Base, cs: seq<Char16>, ds: seq<nat>, rest: seq<Char16>)
    requires |cs| == |ds| && forall i | 0 <= i < |cs| :: Spells(b, cs[i], ds[i])
    requires cs == [] && rest != [] ==> rest[0] != 0x20
    ensures SkipSpaces(cs + rest) == cs + rest
  {
    var s := cs + rest;
    assert s != [] ==> s[0] == if cs == [] then rest[0] else cs[0];
  }

  lemma {:induction false} LeadingRun(b: Base, cs: seq<Char16>, ds: seq<nat>, rest: seq<Char16>)
    requires |cs| == |ds| && forall i | 0 <= i < |cs| :: Spells(b, cs[i], ds[i])
    requires rest != [] ==> forall d: nat :: !Spells(b, rest[0], d)
    ensures LeadingDigits(b, cs + rest) == ds
    decreases |cs|
  {
    hide Spells, IsDigit, DigitOf;
    var s := cs + rest;
    if cs == [] {
      assert s == rest;
      if rest != [] {
        SpelledDigit(b, rest[0]);
      }
    } else {
      SpelledDigit(b, cs[0]);
      assert s[0] == cs[0] && s[1..] == cs[1..] + rest;
      LeadingRun(b, cs[1..], ds[1..], rest);
      assert ds == [ds[0]] + ds[1..];
    }
  }

  // ---- Commas ---------------------------------------------------------------

  function WithoutCommas(s: seq<Char16>): seq<Char16> {
    if s == [] then []
    else WithoutCommas(s[..|s| - 1]) + if s[|s| - 1] == COMMA then [] else [s[|s| - 1]]
  }

  lemma WithoutCommasLast(s: seq<Char16>, c: Char16)
    ensures WithoutCommas(s + [c]) == if c == COMMA then WithoutCommas(s) else WithoutCommas(s) + [c]
  {
    assert (s + [c])[..|s|] == s;
  }

  lemma {:induction false} WithoutCommasPlain(ds: seq<nat>)
    requires Below(ds, 10)
    ensures WithoutCommas(DecChars(ds)) == DecChars(ds)
  {
    if ds != [] {
      var a, d := ds[..|ds| - 1], ds[|ds| - 1];
      WithoutCommasPlain(a);
      assert DecChars(ds) == DecChars(a) + [DecChar(d)];
      WithoutCommasLast(DecChars(a), DecChar(d));
    }
  }

  /** The recursion of Grouped, character by character. */
  lemma GroupedStep(ds: seq<nat>) returns (a: seq<nat>, x: nat, y: nat, z: nat)
    requires Below(ds, 10) && |ds| > 3
    ensures |a| == |ds| - 3 && ds == a + [x, y, z] && Below(a, 10) && x < 10 && y < 10 && z < 10
    ensures Grouped(ds) == Grouped(a) + [COMMA] + [DecChar(x)] + [DecChar(y)] + [DecChar(z)]
    ensures |Grouped(ds)| == |Grouped(a)| + 4
  {
    var n := |ds|;
    a, x, y, z := ds[..n - 3], ds[n - 3], ds[n - 2], ds[n - 1];
    assert DecChars(ds[n - 3..]) == [DecChar(x), DecChar(y), DecChar(z)];
    JoinThree(Grouped(a) + [COMMA], DecChar(x), DecChar(y), DecChar(z));
  }

  lemma JoinThree(g: seq<Char16>, x: Char16, y: Char16, z: Char16)
    ensures g + [x, y, z] == g + [x] + [y] + [z]
  {}

  lemma DecCharsStep(a: seq<nat>, x: nat, y: nat, z: nat)
    requires Below(a, 10) && x < 10 && y < 10 && z < 10
    ensures Below(a + [x, y, z], 10)
    ensures DecChars(a + [x, y, z]) == DecChars(a) + [DecChar(x)] + [DecChar(y)] + [DecChar(z)]
  {
    var s := a + [x, y, z];
    assert forall i | 0 <= i < |s| ::
      s[i] == if i < |a| then a[i] else if i == |a| then x else if i == |a| + 1 then y else z;
  }

  lemma {:induction false} GroupedWithoutCommas(ds: seq<nat>)
    requires Below(ds, 10)
    ensures WithoutCommas(Grouped(ds)) == DecChars(ds)
  {
    if |ds| <= 3 {
      WithoutCommasPlain(ds);
    } else {
      var a, x, y, z := GroupedStep(ds);
      hide Grouped, WithoutCommas, DecChars, DecChar;
      GroupedWithoutCommas(a);
      DecCharsStep(a, x, y, z);
      DigitIsNoComma(x);
      DigitIsNoComma(y);
      DigitIsNoComma(z);
      WithoutCommasLast(Grouped(a), COMMA);
      WithoutCommasLast(Grouped(a) + [COMMA], DecChar(x));
      WithoutCommasLast(Grouped(a) + [COMMA] + [DecChar(x)], DecChar(y));
      WithoutCommasLast(Grouped(a) + [COMMA] + [DecChar(x)] + [DecChar(y)], DecChar(z));
    }
  }

  lemma DigitIsNoComma(d: nat)
    requires d < 10
    ensures DecChar(d) != COMMA && DecChar(d) != 0 && DecChar(d) != SPACE
    ensures IsDigit(Ten, DecChar(d)) && DigitOf(Ten, DecChar(d)) == d
  {}

  /** Deleting the commas of the grouped text gives the plain text. */
  lemma DeletingCommas(v: nat)
    ensures WithoutCommas(MagnitudeText(true, v)) == MagnitudeText(false, v)
  {
    GroupedWithoutCommas(Digits(Ten, v));
  }

  /** Where the commas fall: at the positions that leave a multiple of four
      characters (three digits and a comma) to the right, and never first. */
  lemma {:induction false} CommaPositions(ds: seq<nat>, i: nat)
    requires Below(ds, 10) && i < |Grouped(ds)|
    ensures Grouped(ds)[i] == 0x2C <==> (|Grouped(ds)| - i) % 4 == 0
    ensures Grouped(ds)[0] != 0x2C
    decreases |ds|
  {
    hide Grouped, DecChar, Below;
    if |ds| <= 3 {
      OneGroup(ds, i);
    } else {
      var a, x, y, z := GroupedStep(ds);
      GroupedNonempty(a);
      var g := Grouped(a);
      CommaPositions(a, if i < |g| then i else 0);
      DigitIsNoComma(x);
      DigitIsNoComma(y);
      DigitIsNoComma(z);
      CommaShift(g, DecChar(x), DecChar(y), DecChar(z), i);
    }
  }

  lemma OneGroup(ds: seq<nat>, i: nat)
    requires Below(ds, 10) && |ds| <= 3 && i < |Grouped(ds)|
    ensures Grouped(ds)[i] != COMMA && Grouped(ds)[0] != COMMA && |Grouped(ds)| <= 3
  {
    DigitIsNoComma(ds[i]);
    DigitIsNoComma(ds[0]);
  }

  lemma GroupedNonempty(ds: seq<nat>)
    requires Below(ds, 10) && ds != []
    ensures Grouped(ds) != []
  {}

  lemma CommaShift(g: seq<Char16>, x: Char16, y: Char16, z: Char16, i: nat)
    requires g != [] && x != COMMA && y != COMMA && z != COMMA && i < |g| + 4
    requires i < |g| ==> (g[i] == COMMA <==> (|g| - i) % 4 == 0)
    ensures (g + [COMMA] + [x] + [y] + [z])[i] == COMMA <==> (|g| + 4 - i) % 4 == 0
    ensures (g + [COMMA] + [x] + [y] + [z])[0] == g[0]
  {}

  /** The leading group: k digits, then a comma unless the text ends there. */
  ghost predicate LeadsWith(s: seq<Char16>, ds: seq<nat>, k: nat)
    requires k <= |ds| && Below(ds, 10)
  {
    && k <= |s|
    && (forall i | 0 <= i < k :: s[i] == DecChar(ds[i]))
    && (if k == |ds| then |s| == k else |s| > k && s[k] == COMMA)
  }

  lemma {:induction false} GroupedLeads(ds: seq<nat>)
    requires Below(ds, 10) && ds != []
    ensures LeadsWith(Grouped(ds), ds, (|ds| - 1) % 3 + 1)
  {
    if |ds| > 3 {
      var a, x, y, z := GroupedStep(ds);
      hide Grouped, DecChar;
      GroupedLeads(a);
      var g, k := Grouped(a), (|a| - 1) % 3 + 1;
      assert k == (|ds| - 1) % 3 + 1;
      assert Grouped(ds) == g + ([COMMA] + [DecChar(x)] + [DecChar(y)] + [DecChar(z)]);
    }
  }

  /** Atoi stops at the first comma, so it sees only the leading group. */
  lemma {:induction false} LeadingGroup(s: seq<Char16>, ds: seq<nat>, k: nat)
    requires k <= |ds| && Below(ds, 10) && LeadsWith(s, ds, k)
    ensures LeadingDigits(Ten, s) == ds[..k]
    decreases k
  {
    if k > 0 {
      DigitIsNoComma(ds[0]);
      LeadingGroup(s[1..], ds[1..], k - 1);
      assert ds[..k] == [ds[0]] + ds[1..][..k - 1];
    }
  }

  lemma {:induction false} ValueBound(ds: seq<nat>)
    requires Below(ds, 10)
    ensures Value(Ten, ds) < Power(Ten, |ds|)
  {
    if ds != [] {
      ValueBound(ds[..|ds| - 1]);
    }
  }

  lemma {:induction false} LeadingDigitPositive(v: nat)
    requires v > 0
    ensures Digits(Ten, v)[0] > 0
    decreases v
  {
    if v / 10 > 0 {
      LeadingDigitPositive(v / 10);
    } else {
      assert Digits(Ten, v / 10) == [];
    }
  }

  /** Dropping trailing digits of a number without leading zeros makes it smaller. */
  lemma {:induction false} PrefixSmaller(ds: seq<nat>, k: nat)
    requires 0 < k <= |ds| && ds[0] > 0
    ensures 0 < Value(Ten, ds[..k]) <= Value(Ten, ds)
    ensures k < |ds| ==> Value(Ten, ds[..k]) < Value(Ten, ds)
    decreases |ds|
  {
    if k < |ds| {
      var a := ds[..|ds| - 1];
      PrefixSmaller(a, k);
      assert a[..k] == ds[..k];
    } else if |ds| == 1 {
      assert ds[..0] == [];
      assert ds[..1] == ds;
    } else {
      PrefixSmaller(ds[..|ds| - 1], |ds| - 1);
      assert ds[..k] == ds;
    }
  }

  /** Atoi reads back what ValueToString prints of a value that is not negative,
      exactly when the text has no comma in it. */
  lemma DecRoundTrip(comma: bool, v: nat)
    requires v < 0x8000_0000_0000_0000
    ensures 0 !in DecText(comma, v)
    ensures Parsed(Ten, DecText(comma, v)) == v <==> !comma || v < 1000
  {
    if v == 0 {
      ZeroRoundTrip(comma);
    } else if comma {
      GroupedChars(Digits(Ten, v));
      hide Grouped, Digits, Parsed;
      GroupedRoundTrip(v);
    } else {
      PlainRoundTrip(v);
    }
  }

  lemma ZeroRoundTrip(comma: bool)
    ensures 0 !in DecText(comma, 0) && Parsed(Ten, DecText(comma, 0)) == 0
  {
    var s := DecText(comma, 0);
    assert s[1..] == [];
    assert LeadingDigits(Ten, s) == [0];
    assert Value(Ten, [0]) == Append(Ten, Value(Ten, [0][..0]), 0);
  }

  lemma PlainRoundTrip(v: nat)
    requires 0 < v < QWORD
    ensures 0 !in DecText(false, v) && Parsed(Ten, DecText(false, v)) == v
  {
    var ds, s := Digits(Ten, v), DecText(false, v);
    DigitsNonempty(v);
    assert s == DecChars(ds);
    hide Digits, LeadingDigits, Value, DecText;
    DecCharsPlain(ds);
    DigitsOfDecChars(ds, []);
    ValueOfDigits(Ten, v);
    assert s + [] == s;
    NoSpaceFirst(s);
  }

  lemma NoSpaceFirst(s: seq<Char16>)
    requires s != [] && s[0] != SPACE
    ensures SkipSpaces(s) == s
  {}

  lemma DigitsNonempty(v: nat)
    requires v > 0
    ensures Digits(Ten, v) != []
  {}

  lemma DecCharsPlain(ds: seq<nat>)
    requires Below(ds, 10)
    ensures 0 !in DecChars(ds) && SPACE !in DecChars(ds)
  {
    forall i | 0 <= i < |ds|
      ensures DecChars(ds)[i] != 0 && DecChars(ds)[i] != SPACE
    {
      DigitIsNoComma(ds[i]);
    }
  }

  lemma ParsedGrouped(ds: seq<nat>)
    requires Below(ds, 10) && ds != []
    ensures Parsed(Ten, Grouped(ds)) == Value(Ten, ds[..(|ds| - 1) % 3 + 1]) % QWORD
  {
    var s, k := Grouped(ds), (|ds| - 1) % 3 + 1;
    GroupedLeads(ds);
    LeadingGroup(s, ds, k);
    DigitIsNoComma(ds[0]);
    assert s[0] == DecChar(ds[0]);
    hide Grouped, LeadingDigits, Value, DecChar;
    assert SkipSpaces(s) == s;
  }

  /** The value of the leading group is the whole value only for one group. */
  lemma LeadingGroupValue(ds: seq<nat>, k: nat, v: nat, p: nat)
    requires ds != [] && ds[0] > 0 && v == Value(Ten, ds) < QWORD
    requires k == (|ds| - 1) % 3 + 1 && p == Value(Ten, ds[..k]) % QWORD
    ensures p == v <==> |ds| <= 3
  {
    hide Value;
    PrefixSmaller(ds, k);
    if |ds| <= 3 {
      assert ds[..k] == ds;
    }
  }

  lemma GroupedRoundTrip(v: nat)
    requires 0 < v < 0x8000_0000_0000_0000
    ensures Parsed(Ten, Grouped(Digits(Ten, v))) == v <==> v < 1000
  {
    var ds := Digits(Ten, v);
    var p := Parsed(Ten, Grouped(ds));
    ParsedGrouped(ds);
    ValueOfDigits(Ten, v);
    LeadingDigitPositive(v);
    LeadingGroupValue(ds, (|ds| - 1) % 3 + 1, v, p);
    ThreeDigits(v);
  }

  lemma SmallPowers()
    ensures Power(Ten, 0) == 1 && Power(Ten, 1) == 10 && Power(Ten, 2) == 100 && Power(Ten, 3) == 1000
  {}

  lemma ThreeDigits(v: nat)
    requires v > 0
    ensures v < 1000 <==> |Digits(Ten, v)| <= 3
  {
    hide Digits, Value;
    SmallPowers();
    if v < 1000 {
      DigitCount(Ten, v, 3);
    }
    if |Digits(Ten, v)| <= 3 {
      ValueOfDigits(Ten, v);
      ValueBound(Digits(Ten, v));
    }
  }

  lemma {:induction false} GroupedChars(ds: seq<nat>)
    requires Below(ds, 10) && ds != []
    ensures 0 !in Grouped(ds) && |Grouped(ds)| > 0 && Grouped(ds)[0] != SPACE
  {
    if |ds| > 3 {
      GroupedChars(ds[..|ds| - 3]);
    }
  }

  /** Atoi does not know the sign: a negative number reads as zero. */
  lemma NegativeReadsZero(comma: bool, v: int)
    requires v < 0
    ensures Parsed(Ten, DecText(comma, v)) == 0
  {
    var s := DecText(comma, v);
    assert s[0] == MINUS;
    assert LeadingDigits(Ten, s) == [];
  }

  /** A grouped text of four digits or more is not read back. */
  lemma ThousandReadsOne()
    ensures Parsed(Ten, DecText(true, 1000)) != 1000
  {
    hide Parsed, DecText;
    DecRoundTrip(true, 1000);
  }

  /** xtoi reads a printed number back whatever the number of spaces in front of it, ... */
  lemma HexBehindSpaces(s: seq<Char16>)
    ensures forall n: nat, v: nat :: v < 0x1_0000_0000_0000_0000 && s == Spaces(n) + HexText(v) ==>
      Parsed(Sixteen, s) == v
  {
    hide Spaces, HexText, Parsed;
    forall n: nat, v: nat | v < 0x1_0000_0000_0000_0000 && s == Spaces(n) + HexText(v)
      ensures Parsed(Sixteen, s) == v
    {
      SpacesSkipped(Sixteen, n, HexText(v));
      HexRoundTrip(v);
    }
  }

  /** ... and so does Atoi. */
  lemma DecBehindSpaces(s: seq<Char16>)
    ensures forall n: nat, v: nat :: v < 0x8000_0000_0000_0000 && s == Spaces(n) + DecText(false, v) ==>
      Parsed(Ten, s) == v
  {
    hide Spaces, DecText, Parsed;
    forall n: nat, v: nat | v < 0x8000_0000_0000_0000 && s == Spaces(n) + DecText(false, v)
      ensures Parsed(Ten, s) == v
    {
      SpacesSkipped(Ten, n, DecText(false, v));
      DecRoundTrip(false, v);
    }
  }

  // ---- Printing and reading back --------------------------------------------

  /** xtoi undoes ValueToHex in memory. */
  method HexThereAndBack(buffer: array<Char16>, v: nat) returns (u: nat)
    requires v < QWORD && buffer.Length > |HexText(v)|
    modifies buffer
    ensures u == v
  {
    hide HexText, Written, Text, Parsed;
    ValueToHex(buffer, v);
    HexRoundTrip(v);
    TextOfWritten(old(buffer[..]), HexText(v));
    u := Xtoi(buffer[..]);
  }

  /** Atoi undoes ValueToString in memory, unless commas were asked for and needed. */
  method DecThereAndBack(buffer: array<Char16>, comma: bool, v: nat) returns (u: nat)
    requires v < 0x8000_0000_0000_0000 && buffer.Length > |DecText(comma, v)|
    modifies buffer
    ensures u == v <==> !comma || v < 1000
  {
    hide DecText, Written, Text, Parsed;
    ValueToString(buffer, comma, v);
    DecRoundTrip(comma, v);
    TextOfWritten(old(buffer[..]), DecText(comma, v));
    u := Atoi(buffer[..]);
  }
}
