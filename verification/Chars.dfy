/** CHAR16 code units and the ones the library treats specially. */
module Chars {
  newtype Char16 = c: int | 0 <= c < 0x1_0000

  const NEWLINE: Char16 := 0x0A
  const RETURN: Char16 := 0x0D
  const SPACE: Char16 := 0x20
  const STAR: Char16 := 0x2A
  const COMMA: Char16 := 0x2C
  const MINUS: Char16 := 0x2D
  const ZERO: Char16 := 0x30
  const NINE: Char16 := 0x39
  const QUESTION: Char16 := 0x3F
  const UPPER_A: Char16 := 0x41
  const UPPER_F: Char16 := 0x46
  const OPEN: Char16 := 0x5B
  const CLOSE: Char16 := 0x5D
  const LOWER_A: Char16 := 0x61
  const LOWER_F: Char16 := 0x66

  /** A NUL-terminated string: the terminator is the last unit and the only zero. */
  predicate Terminated(s: seq<Char16>) {
    |s| > 0 && s[|s| - 1] == 0 && forall i | 0 <= i < |s| - 1 :: s[i] != 0
  }

  /** The characters from i up to the terminator. */
  function TextFrom(s: seq<Char16>, i: nat): (t: seq<Char16>)
    requires Terminated(s) && i < |s|
    ensures |t| == |s| - 1 - i
    ensures s[i] == 0 <==> t == []
    ensures t != [] ==> t[0] == s[i]
  {
    s[i..|s| - 1]
  }
}
