// The two sinks of the formatter: a fixed buffer that truncates and a pool buffer that grows.

module PrintSinks {
  import opened Chars
  import opened Common

  const PRINT_STRING_LEN := 200

  predicate NoNul(s: seq<Char16>) {
    forall i :: 0 <= i < |s| ==> s[i] != 0
  }

  function Min(a: nat, b: nat): nat {
    if a < b then a else b
  }

  /** A buffer that holds a NUL-terminated string. */
  ghost predicate HoldsString(buffer: array<Char16>, text: seq<Char16>)
    reads buffer
  {
    |text| < buffer.Length && buffer[..|text|] == text && buffer[|text|] == 0 && NoNul(text)
  }

  method StrLen(buffer: array<Char16>, ghost text: seq<Char16>) returns (n: nat)
    requires HoldsString(buffer, text)
    ensures n == |text|
  {
    n := 0;
    while buffer[n] != 0
      invariant 0 <= n <= |text|
      decreases |text| - n
    {
      assert n < |text|;
      n := n + 1;
    }
  }

  lemma StringPrefix(buffer: array<Char16>, text: seq<Char16>, n: nat)
    requires HoldsString(buffer, text) && n <= |text|
    ensures |text| < buffer.Length && buffer[..n] == text[..n]
  {
    assert buffer[..n] == buffer[..|text|][..n];
  }

  method Terminate(str: array<Char16>, at: nat)
    requires at < str.Length
    modifies str
    ensures str[..] == old(str[..])[at := 0]
  {
    str[at] := 0;
  }

  /** The buffer contents `before` with `added` written at `len` and a terminator behind it. */
  function Spliced(before: seq<Char16>, len: nat, added: seq<Char16>): seq<Char16>
    requires len + |added| < |before|
  {
    before[..len] + added + [0] + before[len + |added| + 1..]
  }

  /** The buffer contents `before` with `added` written at `len`. */
  function Overlaid(before: seq<Char16>, len: nat, added: seq<Char16>): (r: seq<Char16>)
    requires len + |added| <= |before|
    ensures |r| == |before|
  {
    before[..len] + added + before[len + |added|..]
  }

  lemma SplicedWrites(before: seq<Char16>, len: nat, added: seq<Char16>)
    requires len + |added| < |before|
    ensures Overlaid(before, len, added)[len + |added| := 0] == Spliced(before, len, added)
  {
  }

  lemma OverlaidNothing(before: seq<Char16>, len: nat)
    requires len <= |before|
    ensures Overlaid(before, len, []) == before
  {
  }

  /** Copies the first `n` characters of a string. */
  method CopyText(str: array<Char16>, at: nat, buffer: array<Char16>, n: nat, ghost text: seq<Char16>)
    requires str != buffer && HoldsString(buffer, text) && n <= |text| && at + n <= str.Length
    modifies str
    ensures str[..] == Overlaid(old(str[..]), at, text[..n])
  {
    hide HoldsString;
    StringPrefix(buffer, text, n);
    CopyMem(str, at, buffer[..], 0, n);
  }

  /** The first characters of `text` that fit, a terminator, and the rest of the buffer as it was. */
  function Contents(initial: seq<Char16>, text: seq<Char16>, maxlen: nat): seq<Char16>
    requires Min(|text|, maxlen) < |initial|
  {
    text[..Min(|text|, maxlen)] + [0] + initial[Min(|text|, maxlen) + 1..]
  }

  lemma ContentsNext(initial: seq<Char16>, held: seq<Char16>, text: seq<Char16>, maxlen: nat, before: seq<Char16>,
                     at: nat)
    requires Min(|held| + |text|, maxlen) < |initial| && at == Min(|held|, maxlen)
    requires (held == [] && before == initial) || before == Contents(initial, held, maxlen)
    ensures |before| == |initial|
    ensures Spliced(before, at, text[..Min(|held| + |text|, maxlen) - at]) == Contents(initial, held + text, maxlen)
  {
    hide Spliced, Contents;
    var n := Min(|held| + |text|, maxlen);
    BeforeParts(initial, held, maxlen, before, at, n);
    JoinedPrefix(held, text, at, n);
    SplicedIs(before, at, text[..n - at], held + text, initial, n);
    ContentsIs(initial, held + text, maxlen, n);
  }

  lemma SplicedIs(before: seq<Char16>, at: nat, added: seq<Char16>, text: seq<Char16>, initial: seq<Char16>, n: nat)
    requires at + |added| == n < |before| == |initial| && n <= |text|
    requires before[..at] + added == text[..n] && before[n + 1..] == initial[n + 1..]
    ensures Spliced(before, at, added) == text[..n] + [0] + initial[n + 1..]
  {
  }

  lemma ContentsIs(initial: seq<Char16>, text: seq<Char16>, maxlen: nat, n: nat)
    requires n == Min(|text|, maxlen) < |initial|
    ensures Contents(initial, text, maxlen) == text[..n] + [0] + initial[n + 1..]
  {
  }

  lemma BeforeParts(initial: seq<Char16>, held: seq<Char16>, maxlen: nat, before: seq<Char16>, at: nat, n: nat)
    requires at == Min(|held|, maxlen) <= n < |initial|
    requires (held == [] && before == initial) || before == Contents(initial, held, maxlen)
    ensures |before| == |initial| && before[..at] == held[..at] && before[n + 1..] == initial[n + 1..]
  {
  }

  lemma JoinedPrefix(held: seq<Char16>, text: seq<Char16>, at: nat, n: nat)
    requires at <= |held| && at <= n <= |held| + |text| && (at < |held| ==> n == at)
    ensures n - at <= |text| && (held + text)[..n] == held[..at] + text[..n - at]
  {
  }

  lemma MinSum(a: nat, b: nat, c: nat)
    ensures Min(Min(a, c) + b, c) == Min(a + b, c)
  {
  }

  class Sink {
    var str: array?<Char16>
    var len: nat
    var maxlen: nat

    constructor (str: array?<Char16>, maxlen: nat)
      ensures this.str == str && len == 0 && this.maxlen == maxlen
    {
      this.str, len, this.maxlen := str, 0, maxlen;
    }

    /** Room for the text that fits under `maxlen`, and for its terminator. */
    ghost predicate Room(text: seq<Char16>)
      reads this
    {
      len <= maxlen && (maxlen > 0 ==> str != null && Min(len + |text|, maxlen) < str.Length)
    }

    /** Appends as much of the string as fits and terminates it; with no room at all it writes nothing. */
    method SPrint(buffer: array<Char16>, ghost text: seq<Char16>)
      requires HoldsString(buffer, text) && str != buffer && Room(text)
      modifies this`len, str
      ensures len == Min(old(len) + |text|, maxlen)
      ensures maxlen > 0 ==>
              str[..] == Spliced(old(str[..]), old(len), text[..len - old(len)])
      ensures maxlen == 0 && str != null ==> str[..] == old(str[..])
    {
      hide HoldsString, Spliced, Overlaid, NoNul;
      var n := StrLen(buffer, text);
      if len + n > maxlen {
        n := maxlen - len;
      }
      ghost var at, before := len, if str == null then [] else str[..];
      if str != null {
        CopyText(str, len, buffer, n, text);
      }
      len := len + n;
      if len < maxlen {
        Terminate(str, len);
      } else if maxlen != 0 {
        Terminate(str, maxlen);
      }
      if maxlen != 0 {
        SplicedWrites(before, at, text[..n]);
      } else if str != null {
        assert text[..n] == [];
        OverlaidNothing(before, at);
      }
    }

    /** A fixed buffer, once `initial`, that was given `text`: as much of it as `maxlen` allows, terminated. */
    ghost predicate Truncated(initial: seq<Char16>, text: seq<Char16>)
      reads this, str
    {
      && str != null && str.Length == |initial| && len == Min(|text|, maxlen)
      && if maxlen == 0 then str[..] == initial else len < |initial| && str[..] == Contents(initial, text, maxlen)
    }

    /** Printing to a fixed buffer that nothing was printed to, or that already holds text. */
    method TruncatingPrint(buffer: array<Char16>, ghost text: seq<Char16>, ghost initial: seq<Char16>,
                           ghost held: seq<Char16>)
      requires HoldsString(buffer, text) && str != null && str != buffer
      requires (len == 0 && held == [] && str[..] == initial) || Truncated(initial, held)
      requires maxlen > 0 ==> Min(|held| + |text|, maxlen) < |initial|
      modifies this`len, str
      ensures Truncated(initial, held + text)
    {
      hide HoldsString, Spliced, Contents;
      ghost var before, at := str[..], len;
      SPrint(buffer, text);
      MinSum(|held|, |text|, maxlen);
      if maxlen > 0 {
        ContentsNext(initial, held, text, maxlen, before, at);
      }
    }

    /** A pool buffer that holds `text`, terminated; without a buffer it holds nothing. */
    ghost predicate Pooled(text: seq<Char16>)
      reads this, str
    {
      if str == null then len == 0 && maxlen == 0 && text == []
      else len == |text| < maxlen == str.Length && str[..len] == text && str[len] == 0
    }

    /**
     * Appends the string, growing the buffer first when string and terminator would not fit. A failed allocation
     * loses the buffer and the string; nothing is truncated otherwise.
     */
    method PoolPrint(buffer: array<Char16>, ghost text: seq<Char16>, ghost held: seq<Char16>, available: bool)
      requires HoldsString(buffer, text) && str != buffer && Pooled(held)
      modifies this, str
      ensures Pooled(if Grows(|held|, |text|, old(maxlen)) && !available then [] else held + text)
      ensures str == null <==> Grows(|held|, |text|, old(maxlen)) && !available
      ensures str == old(str) || str == null || fresh(str)
      ensures |held| + |text| + 1 <= old(maxlen) ==> str == old(str) && maxlen == old(maxlen)
      ensures |held| + |text| + 1 > old(maxlen) && available ==> fresh(str) && maxlen == |held| + |text| + 1 + 200
    {
      hide Spliced, NoNul, HoldsString;
      var n := StrLen(buffer, text);
      var newlen := len + n + 1;
      if newlen > maxlen {
        newlen := newlen + PRINT_STRING_LEN;
        maxlen := newlen;
        str := ReallocatePool(str, len, maxlen, available);
        if str == null {
          len := 0;
          maxlen := 0;
          SPrint(buffer, text);
          return;
        }
      }
      assert str != buffer;
      ghost var before := str[..];
      SPrint(buffer, text);
      assert text[..len - |held|] == text;
      SplicedHolds(before, |held|, text, str[..]);
      assert before[..|held|] == held;
    }
  }

  /** Whether a string of `n` characters needs a larger buffer. */
  predicate Grows(len: nat, n: nat, maxlen: nat) {
    len + n + 1 > maxlen
  }

  lemma SplicedHolds(before: seq<Char16>, len: nat, added: seq<Char16>, after: seq<Char16>)
    requires len + |added| < |before| && after == Spliced(before, len, added)
    ensures |after| == |before| && after[..len + |added|] == before[..len] + added && after[len + |added|] == 0
  {
  }

  /** A new block with the first `len` characters of the old one, or NULL. */
  method ReallocatePool(str: array?<Char16>, len: nat, size: nat, available: bool) returns (grown: array?<Char16>)
    requires len <= size && (str == null ==> len == 0) && (str != null ==> len <= str.Length)
    ensures grown == null <==> !available
    ensures grown != null ==>
            fresh(grown) && grown.Length == size && grown[..len] == if str == null then [] else str[..len]
  {
    if !available {
      return null;
    }
    grown := new Char16[size];
    if str != null {
      CopyMem(grown, 0, str[..], 0, len);
      assert grown[..len] == str[..len];
    }
  }
}
