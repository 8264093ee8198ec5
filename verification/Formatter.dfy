// The formatter's output stage: characters are collected in a small buffer, carriage returns are added, and full
// buffers are handed to a sink.

module Formatter {
  import opened Chars
  import opened Common
  import opened PrintSinks

  /** A field width of -1: the field is as wide as its text. */
  const UNLIMITED: nat := 0xFFFF_FFFF_FFFF_FFFF

  // ---- What is printed ----

  /** A character as it is put: a newline brings a carriage return in front. */
  function Expanded(c: Char16): seq<Char16> {
    if c == NEWLINE then [RETURN, NEWLINE] else [c]
  }

  function ExpandedAll(s: seq<Char16>): (r: seq<Char16>)
    ensures |r| >= |s|
  {
    if s == [] then [] else ExpandedAll(s[..|s| - 1]) + Expanded(s[|s| - 1])
  }

  function Repeated(c: Char16, n: nat): seq<Char16> {
    seq(n, _ => c)
  }

  /** An item of the format: its string, and how it is padded. */
  datatype Item = Item(chars: seq<Char16>, width: nat, fieldWidth: nat, pad: Char16, padBefore: bool)

  function ItemText(item: Item): seq<Char16>
    requires Terminated(item.chars)
  {
    TextFrom(item.chars, 0)
  }

  function ShownLength(item: Item): nat
    requires Terminated(item.chars)
  {
    Min(|ItemText(item)|, item.fieldWidth)
  }

  function FullWidth(item: Item): nat
    requires Terminated(item.chars)
  {
    if ShownLength(item) > item.width then ShownLength(item) else item.width
  }

  /** Spaces that fill the field up. */
  function Filler(item: Item): seq<Char16>
    requires Terminated(item.chars)
  {
    var field := if item.fieldWidth == UNLIMITED then ShownLength(item) else item.fieldWidth;
    Repeated(SPACE, if field > FullWidth(item) then field - FullWidth(item) else 0)
  }

  /** The item: its text cut to the field, padded to the width, and filled with spaces on one side. */
  function Shown(item: Item): seq<Char16>
    requires Terminated(item.chars)
  {
    var padded := Repeated(item.pad, FullWidth(item) - ShownLength(item)) + ItemText(item)[..ShownLength(item)];
    if item.padBefore then Filler(item) + padded else padded + Filler(item)
  }

  /** A step of the format: a plain character, an item, or a change of attribute. */
  datatype Directive = Plain(c: Char16) | Format(item: Item) | Attribute

  predicate WellFormed(directives: seq<Directive>) {
    forall i :: 0 <= i < |directives| && directives[i].Format? ==> Terminated(directives[i].item.chars)
  }

  function Characters(d: Directive): seq<Char16>
    requires d.Format? ==> Terminated(d.item.chars)
  {
    match d
    case Plain(c) => [c]
    case Format(item) => Shown(item)
    case Attribute => []
  }

  /** Everything that a format puts, newlines expanded. */
  function Rendered(directives: seq<Directive>): seq<Char16>
    requires WellFormed(directives)
  {
    if directives == [] then []
    else Rendered(directives[..|directives| - 1]) + ExpandedAll(Characters(directives[|directives| - 1]))
  }

  lemma Regroup(a: seq<Char16>, b: seq<Char16>, c: seq<Char16>, d: seq<Char16>)
    ensures ((a + b) + c) + d == a + ((b + c) + d)
    ensures |a + b| == |a| + |b| && |(a + b) + c| == |a| + |b| + |c| && |(b + c) + d| == |b| + |c| + |d|
  {
    Associative(a, b, c);
    Associative(a, b + c, d);
  }

  lemma ExpandedLast(s: seq<Char16>, c: Char16)
    ensures ExpandedAll(s + [c]) == ExpandedAll(s) + Expanded(c)
  {
    assert (s + [c])[..|s|] == s;
  }

  lemma {:induction false} ExpandedSum(s: seq<Char16>, t: seq<Char16>)
    ensures ExpandedAll(s + t) == ExpandedAll(s) + ExpandedAll(t)
    decreases |t|
  {
    if t == [] {
      assert s + t == s;
    } else {
      var init, last := t[..|t| - 1], t[|t| - 1];
      ExpandedSum(s, init);
      hide Expanded, ExpandedAll;
      assert t == init + [last];
      Associative(s, init, [last]);
      ExpandedLast(s + init, last);
      ExpandedLast(init, last);
      Associative(ExpandedAll(s), ExpandedAll(init), Expanded(last));
    }
  }

  // ---- What the printed text says ----

  /** The characters of a format, before newlines are expanded. */
  function Typed(directives: seq<Directive>): seq<Char16>
    requires WellFormed(directives)
  {
    if directives == [] then []
    else Typed(directives[..|directives| - 1]) + Characters(directives[|directives| - 1])
  }

  lemma {:induction false} RenderedIsExpanded(directives: seq<Directive>)
    requires WellFormed(directives)
    ensures Rendered(directives) == ExpandedAll(Typed(directives))
  {
    hide Characters, ExpandedAll;
    if directives == [] {
      NothingExpanded([]);
    } else {
      var init := directives[..|directives| - 1];
      RenderedIsExpanded(init);
      ExpandedSum(Typed(init), Characters(directives[|directives| - 1]));
    }
  }

  function WithoutReturns(s: seq<Char16>): seq<Char16> {
    if s == [] then []
    else WithoutReturns(s[..|s| - 1]) + if s[|s| - 1] == 0x0D then [] else [s[|s| - 1]]
  }

  lemma WithoutReturnsLast(s: seq<Char16>, c: Char16)
    ensures WithoutReturns(s + [c]) == if c == 0x0D then WithoutReturns(s) else WithoutReturns(s) + [c]
  {
    assert (s + [c])[..|s|] == s;
  }

  /** Every newline of a text stands right behind a carriage return. */
  predicate NewlinesReturned(s: seq<Char16>) {
    forall i :: 0 <= i < |s| && s[i] == 0x0A ==> i > 0 && s[i - 1] == 0x0D
  }

  lemma {:induction false} ExpandedReturns(s: seq<Char16>)
    ensures NewlinesReturned(ExpandedAll(s))
  {
    if s != [] {
      var init, c := s[..|s| - 1], s[|s| - 1];
      ExpandedReturns(init);
      assert ExpandedAll(s) == ExpandedAll(init) + Expanded(c);
      hide ExpandedAll;
      ReturnedNext(ExpandedAll(init), c);
    }
  }

  lemma ReturnedNext(e: seq<Char16>, c: Char16)
    requires NewlinesReturned(e)
    ensures NewlinesReturned(e + Expanded(c))
  {
  }

  lemma {:induction false} ReturnsDeleted(s: seq<Char16>)
    requires 0x0D !in s
    ensures WithoutReturns(ExpandedAll(s)) == s
  {
    hide ExpandedAll, WithoutReturns, Expanded;
    if s == [] {
      NothingExpanded([]);
      NothingDeleted();
    } else {
      var init, c := s[..|s| - 1], s[|s| - 1];
      ReturnsDeleted(init);
      assert s == init + [c];
      ExpandedLast(init, c);
      DeletedNext(ExpandedAll(init), c);
    }
  }

  lemma NothingDeleted()
    ensures WithoutReturns([]) == []
  {
  }

  lemma DeletedNext(e: seq<Char16>, c: Char16)
    requires c != 0x0D
    ensures WithoutReturns(e + Expanded(c)) == WithoutReturns(e) + [c]
  {
    WithoutReturnsLast(e, c);
    WithoutReturnsLast(e, 0x0D);
    WithoutReturnsLast(e + [0x0D], c);
    hide WithoutReturns;
    assert e + [0x0D, c] == e + [0x0D] + [c];
  }

  /**
   * In the text of every format each newline stands right behind a carriage return; and when the format itself has no
   * carriage return, deleting them gives back its characters.
   */
  lemma PrintedText(directives: seq<Directive>)
    requires WellFormed(directives)
    ensures NewlinesReturned(Rendered(directives))
    ensures 0x0D !in Typed(directives) ==> WithoutReturns(Rendered(directives)) == Typed(directives)
  {
    hide Rendered, Typed, WithoutReturns, ExpandedAll;
    RenderedIsExpanded(directives);
    ExpandedReturns(Typed(directives));
    if 0x0D !in Typed(directives) {
      ReturnsDeleted(Typed(directives));
    }
  }

  /** The characters of a format are those of its parts in order; an attribute change has none. */
  lemma {:induction false} TypedSum(a: seq<Directive>, b: seq<Directive>)
    requires WellFormed(a) && WellFormed(b)
    ensures WellFormed(a + b) && Typed(a + b) == Typed(a) + Typed(b)
    decreases |b|
  {
    hide Characters;
    if b == [] {
      assert a + b == a;
    } else {
      var init, d := b[..|b| - 1], b[|b| - 1];
      TypedSum(a, init);
      assert (a + b)[..|a + b| - 1] == a + init;
      Associative(Typed(a), Typed(init), Characters(d));
    }
  }

  lemma TypedOne(d: Directive)
    requires WellFormed([d])
    ensures d.Plain? ==> Typed([d]) == [d.c]
    ensures d.Attribute? ==> Typed([d]) == []
    ensures d.Format? ==> Terminated(d.item.chars) && Typed([d]) == Shown(d.item)
  {
    assert [d][..0] == [] && [d][0] == d;
    assert [] + Characters(d) == Characters(d);
  }

  /** How many characters of an item are shown, its width and its field width once the text is measured. */
  predicate Measured(item: Item, cut: nat, width: nat, field: nat)
    requires Terminated(item.chars)
  {
    && cut == (if |item.chars| - 1 < item.fieldWidth then |item.chars| - 1 else item.fieldWidth)
    && width == (if item.width < cut then cut else item.width)
    && field == (if item.fieldWidth == 0xFFFF_FFFF_FFFF_FFFF then cut else item.fieldWidth)
  }

  /**
   * Character by character: the text cut to the field, at the right of its width with padding in front of it, and
   * spaces up to the field width on the side asked for.
   */
  lemma ShownAt(item: Item, cut: nat, width: nat, field: nat, i: nat)
    requires Terminated(item.chars) && Measured(item, cut, width, field) && i < |Shown(item)|
    ensures |Shown(item)| == if width < field then field else width
    ensures var at := if item.padBefore then i - (|Shown(item)| - width) else i;
      Shown(item)[i] == if at < 0 || at >= width then 0x20 else if at < width - cut then item.pad
                        else item.chars[at - (width - cut)]
  {
    hide Terminated, TextFrom, Repeated, Shown;
    var filler, padding, text := ShownParts(item, cut, width, field);
    PartsAt(filler, padding, text, item.padBefore, i);
  }

  lemma ShownParts(item: Item, cut: nat, width: nat, field: nat)
      returns (filler: seq<Char16>, padding: seq<Char16>, text: seq<Char16>)
    requires Terminated(item.chars) && Measured(item, cut, width, field)
    ensures cut <= width && |text| == cut < |item.chars| && forall j :: 0 <= j < cut ==> text[j] == item.chars[j]
    ensures |padding| == width - cut && forall j :: 0 <= j < |padding| ==> padding[j] == item.pad
    ensures |filler| == (if width < field then field - width else 0)
    ensures forall j :: 0 <= j < |filler| ==> filler[j] == 0x20
    ensures Shown(item) == if item.padBefore then filler + (padding + text) else (padding + text) + filler
  {
    hide Terminated, TextFrom, Repeated, Measured, ItemText;
    Widths(item, cut, width, field);
    filler, padding, text := Filler(item), Repeated(item.pad, width - cut), ItemText(item)[..cut];
    AllTheSame(item.pad, width - cut);
    AllTheSame(SPACE, |filler|);
    hide Filler, FullWidth, ShownLength;
    assert forall j :: 0 <= j < cut ==> text[j] == ItemText(item)[j];
  }

  lemma AllTheSame(c: Char16, n: nat)
    ensures |Repeated(c, n)| == n && forall j :: 0 <= j < n ==> Repeated(c, n)[j] == c
  {
  }

  lemma Widths(item: Item, cut: nat, width: nat, field: nat)
    requires Terminated(item.chars) && Measured(item, cut, width, field)
    ensures ShownLength(item) == cut <= FullWidth(item) == width && cut <= |ItemText(item)| == |item.chars| - 1
    ensures forall j :: 0 <= j < |ItemText(item)| ==> ItemText(item)[j] == item.chars[j]
    ensures var n := if width < field then field - width else 0;
      Filler(item) == Repeated(SPACE, n) && |Filler(item)| == n
  {
  }

  lemma PartsAt(filler: seq<Char16>, padding: seq<Char16>, text: seq<Char16>, before: bool, i: nat)
    requires i < |filler| + |padding| + |text|
    ensures var s := if before then filler + (padding + text) else (padding + text) + filler;
      var at := if before then i - |filler| else i;
      s[i] == if at < 0 then filler[i] else if at < |padding| then padding[at]
              else if at < |padding| + |text| then text[at - |padding|] else filler[at - |padding| - |text|]
  {
  }

  // ---- Chunks ----

  /** The characters up to the first NUL. */
  function UpToNul(s: seq<Char16>): (r: seq<Char16>)
    ensures |r| <= |s| && r == s[..|r|] && NoNul(r)
    ensures |r| < |s| ==> s[|r|] == 0
    ensures NoNul(s) ==> r == s
  {
    if s == [] || s[0] == 0 then [] else [s[0]] + UpToNul(s[1..])
  }

  /**
   * Of the `text` put so far, `pending` is still in the buffer. When the text has no NUL, the sink holds what comes
   * right before it: all of it when nothing was lost.
   */
  ghost predicate Accounted(text: seq<Char16>, held: seq<Char16>, pending: seq<Char16>, whole: bool) {
    && |held| + |pending| <= |text| && pending == text[|text| - |pending|..]
    && (NoNul(text) ==> held + pending == text[|text| - |held| - |pending|..])
    && (NoNul(text) && whole ==> |held| + |pending| == |text|)
  }

  lemma AccountedFlush(text: seq<Char16>, held: seq<Char16>, pending: seq<Char16>, whole: bool, after: seq<Char16>,
                       still: bool)
    requires Accounted(text, held, pending, whole) && (after == held + UpToNul(pending) || after == [])
    requires still ==> whole && after == held + UpToNul(pending)
    ensures Accounted(text, after, [], still)
  {
    hide UpToNul, NoNul;
    SuffixNoNul(text, |pending|);
    assert after + [] == after && text[|text|..] == [];
  }

  lemma SuffixNoNul(text: seq<Char16>, n: nat)
    requires n <= |text|
    ensures NoNul(text) ==> NoNul(text[|text| - n..])
  {
  }

  lemma AccountedPut(text: seq<Char16>, held: seq<Char16>, pending: seq<Char16>, whole: bool, c: Char16)
    requires Accounted(text, held, pending, whole)
    ensures Accounted(text + [c], held, pending + [c], whole)
  {
    var longer := text + [c];
    if NoNul(longer) {
      assert forall i :: 0 <= i < |text| ==> text[i] == longer[i];
      var k := |text| - |held| - |pending|;
      assert longer[k..] == text[k..] + [c];
      Associative(held, pending, [c]);
    }
  }

  datatype Worker = Fixed | Pool

  class PrintState {
    var buffer: array<Char16>
    var pos: nat
    var len: nat
    var flushes: nat
    const sink: Sink
    const worker: Worker
    const available: nat -> bool

    ghost const initial: seq<Char16>
    ghost var text: seq<Char16>
    ghost var held: seq<Char16>

    constructor (sink: Sink, worker: Worker, available: nat -> bool)
      requires worker == Fixed ==> sink.len == 0 && sink.str != null
      requires worker == Pool ==> sink.Pooled([])
      ensures Valid() && fresh(buffer) && this.sink == sink && this.worker == worker && this.available == available
      ensures text == [] && flushes == 0 && initial == (if sink.str == null then [] else sink.str[..])
    {
      buffer := new Char16[PRINT_STRING_LEN];
      pos, len, flushes := 0, 0, 0;
      this.sink, this.worker, this.available := sink, worker, available;
      initial := if sink.str == null then [] else sink.str[..];
      text, held := [], [];
    }

    /** No flush so far met a failed allocation. */
    ghost predicate Whole()
      reads this`flushes
    {
      worker == Fixed || forall i :: 0 <= i < flushes ==> available(i)
    }

    /** What the sink holds after flush number `n` of `chunk`: a pool buffer that cannot grow is lost. */
    ghost function Kept(held: seq<Char16>, chunk: seq<Char16>, maxlen: nat, n: nat): seq<Char16> {
      if worker == Pool && Grows(|held|, |chunk|, maxlen) && !available(n) then [] else held + chunk
    }

    ghost predicate SinkHolds()
      reads this`flushes, this`held, sink, sink.str
    {
      match worker
      case Fixed => if flushes == 0 then sink.len == 0 && held == [] && sink.str != null && sink.str[..] == initial
                    else sink.Truncated(initial, held)
      case Pool => sink.Pooled(held) && (flushes > 0 && Whole() ==> sink.str != null)
    }

    /** The sink holds what was flushed, the buffer the rest of what was put. */
    ghost predicate Collecting()
      reads this, buffer, sink, sink.str
    {
      && buffer.Length == PRINT_STRING_LEN && pos < buffer.Length && sink.str != buffer
      && len == |text| && Accounted(text, held, buffer[..pos], Whole())
      && SinkHolds()
    }

    ghost predicate Valid()
      reads this, buffer, sink, sink.str
    {
      Collecting() && pos < PRINT_STRING_LEN - 1
    }

    /** Room in a fixed buffer for the first `n` characters, cut to its limit. */
    ghost predicate Fits(n: nat)
      reads sink`maxlen
    {
      worker == Fixed && sink.maxlen > 0 ==> Min(n, sink.maxlen) < |initial|
    }

    lemma FitsLess(n: nat, m: nat)
      requires Fits(n) && m <= n
      ensures Fits(m)
    {
    }

    /** Hands the buffer, up to its first NUL, to the sink. */
    method Flush()
      requires Collecting() && Fits(|text|)
      modifies this`pos, this`flushes, this`held, buffer, sink, sink.str
      ensures Valid() && pos == 0 && flushes == old(flushes) + 1
      ensures held == Kept(old(held), UpToNul(old(buffer[..pos])), old(sink.maxlen), old(flushes))
      ensures worker == Fixed ==> sink.str == old(sink.str) && sink.maxlen == old(sink.maxlen)
      ensures sink.str == old(sink.str) || sink.str == null || fresh(sink.str)
    {
      hide SinkHolds, HoldsString, NoNul, Whole, Fits, Accounted;
      ghost var pending, whole, before := buffer[..pos], Whole(), held;
      HeldShorter(text, held, pending, whole);
      FitsLess(|text|, |held| + |UpToNul(pending)|);
      buffer[pos] := 0;
      assert buffer[..pos] == pending;
      ChunkHeld(buffer, pos, UpToNul(pending));
      Output(UpToNul(pending));
      pos := 0;
      AccountedFlush(text, before, pending, whole, held, Whole());
      assert buffer[..pos] == [];
    }

    /** Puts one character; a newline puts a carriage return first. A full buffer is flushed. */
    method Put(c: Char16)
      requires Valid() && Fits(|text| + |Expanded(c)|)
      modifies this`pos, this`len, this`flushes, this`text, this`held, buffer, sink, sink.str
      ensures Valid() && text == old(text) + Expanded(c)
      ensures c == 0x0A ==> text == old(text) + [0x0D, 0x0A]
      ensures c != 0x0A ==> text == old(text) + [c]
      ensures worker == Fixed ==> sink.str == old(sink.str) && sink.maxlen == old(sink.maxlen)
      ensures sink.str == old(sink.str) || sink.str == null || fresh(sink.str)
      decreases if c == NEWLINE then 1 else 0
    {
      hide Valid;
      if c == NEWLINE {
        Put(RETURN);
      }
      Store(c);
      assert text == old(text) + Expanded(c);
    }

    /** Stores one character, and flushes when the buffer is full. */
    method Store(c: Char16)
      requires Valid() && Fits(|text| + 1)
      modifies this`pos, this`len, this`flushes, this`text, this`held, buffer, sink, sink.str
      ensures Valid() && text == old(text) + [c]
      ensures worker == Fixed ==> sink.str == old(sink.str) && sink.maxlen == old(sink.maxlen)
      ensures sink.str == old(sink.str) || sink.str == null || fresh(sink.str)
    {
      hide SinkHolds, NoNul, Whole, Fits, Accounted;
      ghost var pending := buffer[..pos];
      AccountedPut(text, held, pending, Whole(), c);
      buffer[pos] := c;
      pos := pos + 1;
      len := len + 1;
      text := text + [c];
      assert buffer[..pos] == pending + [c];
      if pos >= PRINT_STRING_LEN - 1 {
        Flush();
      }
    }

    /** The padding loops: the same character for every index from `from` up to `to`. */
    method PutMany(c: Char16, from: nat, to: nat)
      requires Valid() && Fits(|text| + |ExpandedAll(Repeated(c, if from < to then to - from else 0))|)
      modifies this`pos, this`len, this`flushes, this`text, this`held, buffer, sink, sink.str
      ensures Valid() && text == old(text) + ExpandedAll(Repeated(c, if from < to then to - from else 0))
      ensures worker == Fixed ==> sink.str == old(sink.str) && sink.maxlen == old(sink.maxlen)
      ensures sink.str == old(sink.str) || sink.str == null || fresh(sink.str)
    {
      hide Valid, Expanded, ExpandedAll, Repeated;
      ghost var start, total := text, if from < to then to - from else 0;
      var i := from;
      NothingRepeated(c);
      while i < to
        invariant from <= i && (i <= to || i == from)
        invariant Valid() && text == start + ExpandedAll(Repeated(c, i - from))
        invariant worker == Fixed ==> sink.str == old(sink.str) && sink.maxlen == old(sink.maxlen)
        invariant sink.str == old(sink.str) || sink.str == null || fresh(sink.str)
      {
        RepeatedNext(c, i - from, total);
        Associative(start, ExpandedAll(Repeated(c, i - from)), Expanded(c));
        Put(c);
        i := i + 1;
      }
    }

    /** The first `n` characters of a string. */
    method PutText(chars: seq<Char16>, n: nat, ghost shown: seq<Char16>)
      requires |shown| == n <= |chars| && forall k :: 0 <= k < n ==> shown[k] == chars[k]
      requires Valid() && Fits(|text| + |ExpandedAll(shown)|)
      modifies this`pos, this`len, this`flushes, this`text, this`held, buffer, sink, sink.str
      ensures Valid() && text == old(text) + ExpandedAll(shown)
      ensures worker == Fixed ==> sink.str == old(sink.str) && sink.maxlen == old(sink.maxlen)
      ensures sink.str == old(sink.str) || sink.str == null || fresh(sink.str)
    {
      hide Valid, Expanded, ExpandedAll;
      ghost var start := text;
      NothingExpanded(shown);
      var i := 0;
      while i < n
        invariant 0 <= i <= n
        invariant Valid() && text == start + ExpandedAll(shown[..i])
        invariant worker == Fixed ==> sink.str == old(sink.str) && sink.maxlen == old(sink.maxlen)
        invariant sink.str == old(sink.str) || sink.str == null || fresh(sink.str)
      {
        ExpandedNext(shown, i);
        Associative(start, ExpandedAll(shown[..i]), Expanded(shown[i]));
        Put(chars[i]);
        i := i + 1;
      }
      assert shown[..n] == shown;
    }

    /** One item: spaces, padding, text and spaces, as its widths ask. */
    method PutItem(item: Item)
      requires Terminated(item.chars)
      requires Valid() && Fits(|text| + |ExpandedAll(Shown(item))|)
      modifies this`pos, this`len, this`flushes, this`text, this`held, buffer, sink, sink.str
      ensures Valid() && text == old(text) + ExpandedAll(Shown(item))
      ensures worker == Fixed ==> sink.str == old(sink.str) && sink.maxlen == old(sink.maxlen)
      ensures sink.str == old(sink.str) || sink.str == null || fresh(sink.str)
    {
      hide Valid, Expanded, ExpandedAll, Terminated, TextFrom, Repeated, Shown;
      var shown := Measure(item.chars, item.fieldWidth);
      var fieldWidth := item.fieldWidth;
      if fieldWidth == UNLIMITED {
        fieldWidth := shown;
      }
      var width := item.width;
      if shown > width {
        width := shown;
      }
      ghost var start := text;
      ghost var cut, f, p, t := ItemParts(item, shown, fieldWidth, width);
      Regroup(start, f, p, t);
      Regroup(start, p, t, f);
      if item.padBefore {
        PutMany(SPACE, width, fieldWidth);
      }
      PutMany(item.pad, shown, width);
      PutText(item.chars, shown, cut);
      if !item.padBefore {
        PutMany(SPACE, width, fieldWidth);
      }
    }

    /** Carries out a format and flushes what is left; the result counts the characters put. */
    method Print(directives: seq<Directive>) returns (n: nat)
      requires WellFormed(directives) && Valid() && text == [] && Fits(|Rendered(directives)|)
      modifies this`pos, this`len, this`flushes, this`text, this`held, buffer, sink, sink.str
      ensures n == |Rendered(directives)| && text == Rendered(directives)
      ensures SinkHolds() && flushes > 0
      ensures NoNul(text) ==> |held| <= |text| && held == text[|text| - |held|..]
      ensures NoNul(text) && Whole() ==> held == text
      ensures worker == Fixed ==> sink.str == old(sink.str) && sink.maxlen == old(sink.maxlen)
      ensures sink.str == old(sink.str) || sink.str == null || fresh(sink.str)
    {
      hide Rendered, Shown, ExpandedAll, Terminated, SinkHolds, Accounted, Whole, NoNul;
      var i := 0;
      NothingRendered(directives);
      while i < |directives|
        invariant 0 <= i <= |directives|
        invariant Valid() && text == Rendered(directives[..i])
        invariant worker == Fixed ==> sink.str == old(sink.str) && sink.maxlen == old(sink.maxlen)
        invariant sink.str == old(sink.str) || sink.str == null || fresh(sink.str)
      {
        RenderedNext(directives, i);
        match directives[i] {
          case Plain(c) =>
            OneExpanded(c);
            Put(c);
          case Format(item) =>
            PutItem(item);
          case Attribute =>
            Flush();
        }
        i := i + 1;
      }
      assert directives[..i] == directives;
      Flush();
      assert buffer[..pos] == [];
      AllHeld(text, held, Whole());
      n := len;
    }

    /** Calls the sink's worker on the string in the buffer. */
    method Output(ghost chunk: seq<Char16>)
      requires SinkHolds() && HoldsString(buffer, chunk) && sink.str != buffer && Fits(|held| + |chunk|)
      modifies this`flushes, this`held, sink, sink.str
      ensures SinkHolds() && flushes == old(flushes) + 1
      ensures held == Kept(old(held), chunk, old(sink.maxlen), old(flushes))
      ensures Whole() ==> old(Whole()) && held == old(held) + chunk
      ensures worker == Fixed ==> sink.str == old(sink.str) && sink.maxlen == old(sink.maxlen)
      ensures sink.str == old(sink.str) || sink.str == null || fresh(sink.str)
    {
      hide HoldsString;
      if worker == Fixed {
        sink.TruncatingPrint(buffer, chunk, initial, held);
        held := held + chunk;
      } else {
        ghost var kept := Kept(held, chunk, sink.maxlen, flushes);
        sink.PoolPrint(buffer, chunk, held, available(flushes));
        held := kept;
      }
      flushes := flushes + 1;
    }
  }

  lemma NothingRepeated(c: Char16)
    ensures ExpandedAll(Repeated(c, 0)) == []
  {
  }

  lemma RepeatedNext(c: Char16, k: nat, n: nat)
    requires k < n
    ensures ExpandedAll(Repeated(c, k + 1)) == ExpandedAll(Repeated(c, k)) + Expanded(c)
    ensures |ExpandedAll(Repeated(c, k))| + |Expanded(c)| <= |ExpandedAll(Repeated(c, n))|
  {
    assert Repeated(c, k + 1)[..k] == Repeated(c, k);
    assert Repeated(c, n) == Repeated(c, k + 1) + Repeated(c, n - k - 1);
    ExpandedSum(Repeated(c, k + 1), Repeated(c, n - k - 1));
  }

  lemma ExpandedNext(s: seq<Char16>, i: nat)
    requires i < |s|
    ensures ExpandedAll(s[..i + 1]) == ExpandedAll(s[..i]) + Expanded(s[i])
    ensures |ExpandedAll(s[..i])| + |Expanded(s[i])| <= |ExpandedAll(s)|
  {
    hide Expanded, ExpandedAll;
    assert s[..i + 1] == s[..i] + [s[i]];
    ExpandedLast(s[..i], s[i]);
    assert s == s[..i + 1] + s[i + 1..];
    ExpandedSum(s[..i + 1], s[i + 1..]);
  }

  /** The length of a string, up to a field width. */
  method Measure(chars: seq<Char16>, fieldWidth: nat) returns (n: nat)
    requires Terminated(chars)
    ensures n == Min(|TextFrom(chars, 0)|, fieldWidth)
  {
    n := 0;
    while n < fieldWidth
      invariant 0 <= n <= |chars| - 1 && n <= fieldWidth
    {
      if chars[n] == 0 {
        break;
      }
      n := n + 1;
    }
  }

  lemma NothingExpanded(s: seq<Char16>)
    ensures ExpandedAll(s[..0]) == []
  {
  }

  /** The parts of a shown item, in terms of the widths that the method computes. */
  lemma ItemParts(item: Item, shown: nat, fieldWidth: nat, width: nat)
      returns (cut: seq<Char16>, f: seq<Char16>, p: seq<Char16>, t: seq<Char16>)
    requires Terminated(item.chars) && shown == Min(|TextFrom(item.chars, 0)|, item.fieldWidth)
    requires fieldWidth == if item.fieldWidth == UNLIMITED then shown else item.fieldWidth
    requires width == if shown > item.width then shown else item.width
    ensures |cut| == shown <= |item.chars| && forall k :: 0 <= k < shown ==> cut[k] == item.chars[k]
    ensures f == ExpandedAll(Repeated(SPACE, if width < fieldWidth then fieldWidth - width else 0))
    ensures p == ExpandedAll(Repeated(item.pad, if shown < width then width - shown else 0))
    ensures t == ExpandedAll(cut)
    ensures ExpandedAll(Shown(item)) == if item.padBefore then f + p + t else p + t + f
  {
    hide ExpandedAll, Repeated;
    cut := ItemText(item)[..shown];
    var filler, padding := Filler(item), Repeated(item.pad, width - shown);
    f, p, t := ExpandedAll(filler), ExpandedAll(padding), ExpandedAll(cut);
    ExpandedSum(padding, cut);
    ExpandedSum(filler, padding + cut);
    ExpandedSum(padding + cut, filler);
    Associative(f, p, t);
  }

  lemma OneExpanded(c: Char16)
    ensures ExpandedAll([c]) == Expanded(c)
  {
    ExpandedLast([], c);
  }

  lemma NothingRendered(directives: seq<Directive>)
    requires WellFormed(directives)
    ensures Rendered(directives[..0]) == []
  {
  }

  lemma RenderedNext(directives: seq<Directive>, i: nat)
    requires WellFormed(directives) && i < |directives|
    ensures WellFormed(directives[..i]) && WellFormed(directives[..i + 1])
    ensures Rendered(directives[..i + 1]) == Rendered(directives[..i]) + ExpandedAll(Characters(directives[i]))
    ensures |Rendered(directives[..i + 1])| <= |Rendered(directives)|
    ensures ExpandedAll([]) == []
  {
    hide ExpandedAll, Characters;
    assert directives[..i + 1][..i] == directives[..i];
    RenderedGrows(directives, i + 1);
    NothingExpanded([]);
  }

  lemma {:induction false} RenderedGrows(directives: seq<Directive>, i: nat)
    requires WellFormed(directives) && i <= |directives|
    ensures |Rendered(directives[..i])| <= |Rendered(directives)|
    decreases |directives|
  {
    hide ExpandedAll, Characters;
    if i < |directives| {
      var init := directives[..|directives| - 1];
      RenderedGrows(init, i);
      assert init[..i] == directives[..i];
    } else {
      assert directives[..i] == directives;
    }
  }

  /** The limit that a buffer size in bytes sets, in machine arithmetic: one character is kept for the terminator. */
  function Limit(strSize: nat): nat {
    (strSize / 2 - 1) % QWORD
  }

  /**
   * Printing to a buffer of `strSize` bytes. From 4 bytes on the buffer ends as the first `strSize / 2 - 1`
   * characters, terminated; with 2 or 3 bytes it is left alone; below 2 there is no limit.
   */
  method VSPrint(str: array<Char16>, strSize: nat, directives: seq<Directive>) returns (n: nat)
    requires WellFormed(directives) && strSize < QWORD
    requires strSize >= 2 ==> strSize <= 2 * str.Length
    requires strSize < 2 ==> |Rendered(directives)| < Min(str.Length, QWORD)
    modifies str
    ensures NoNul(Rendered(directives)) && strSize >= 4 ==>
            n == Min(|Rendered(directives)|, strSize / 2 - 1) < str.Length &&
            str[..] == Rendered(directives)[..n] + [0] + old(str[n + 1..])
    ensures 2 <= strSize < 4 ==> n == 0 && str[..] == old(str[..])
    ensures NoNul(Rendered(directives)) && strSize < 2 ==>
            n == |Rendered(directives)| && str[..] == Rendered(directives) + [0] + old(str[n + 1..])
  {
    hide Rendered, NoNul, WellFormed, Min, Contents, Limit;
    var spc := new Sink(str, Limit(strSize));
    var ps := new PrintState(spc, Fixed, _ => true);
    LimitFits(strSize, |Rendered(directives)|, str.Length);
    var _ := ps.Print(directives);
    n := spc.len;
    Printed(ps.initial, ps.held, Rendered(directives), strSize, str[..], n);
  }

  lemma LimitFits(strSize: nat, n: nat, length: nat)
    requires strSize < QWORD && (if strSize >= 2 then strSize <= 2 * length else n < Min(length, QWORD))
    ensures Limit(strSize) > 0 ==> Min(n, Limit(strSize)) < length
    ensures strSize < 2 ==> n < QWORD
  {
    LimitRange(strSize);
  }

  /** What a fixed buffer holds at the end, by the size it was given. */
  lemma Printed(initial: seq<Char16>, held: seq<Char16>, text: seq<Char16>, strSize: nat, after: seq<Char16>, n: nat)
    requires strSize < QWORD && n == Min(|held|, Limit(strSize))
    requires if Limit(strSize) == 0 then after == initial
             else n < |initial| && after == Contents(initial, held, Limit(strSize))
    requires strSize < 2 ==> |text| < QWORD
    ensures held == text && strSize >= 4 ==>
            n == Min(|text|, strSize / 2 - 1) < |initial| && after == text[..n] + [0] + initial[n + 1..]
    ensures 2 <= strSize < 4 ==> n == 0 && after == initial
    ensures held == text && strSize < 2 ==> n == |text| < |initial| && after == text + [0] + initial[n + 1..]
  {
    LimitRange(strSize);
  }

  lemma LimitRange(strSize: nat)
    requires strSize < QWORD
    ensures Limit(strSize) == if strSize < 2 then QWORD - 1 else strSize / 2 - 1
  {
  }

  /**
   * Printing to the pool: without a failed allocation the buffer holds the whole text, terminated; otherwise it holds
   * the end of the text, from behind the last chunk that was lost.
   */
  method VPoolPrint(directives: seq<Directive>, available: nat -> bool) returns (spc: Sink)
    requires WellFormed(directives)
    ensures NoNul(Rendered(directives)) ==>
            spc.len <= |Rendered(directives)| && spc.Pooled(Rendered(directives)[|Rendered(directives)| - spc.len..])
    ensures NoNul(Rendered(directives)) && (forall i :: available(i)) ==>
            spc.str != null && spc.Pooled(Rendered(directives))
  {
    hide Rendered, NoNul, WellFormed;
    spc := new Sink(null, 0);
    var ps := new PrintState(spc, Pool, available);
    var _ := ps.Print(directives);
  }

  lemma AllHeld(text: seq<Char16>, held: seq<Char16>, whole: bool)
    requires Accounted(text, held, [], whole)
    ensures NoNul(text) ==> |held| <= |text| && held == text[|text| - |held|..]
    ensures NoNul(text) && whole ==> held == text
  {
  }

  lemma HeldShorter(text: seq<Char16>, held: seq<Char16>, pending: seq<Char16>, whole: bool)
    requires Accounted(text, held, pending, whole)
    ensures |held| + |UpToNul(pending)| <= |text|
  {
  }

  lemma ChunkHeld(buffer: array<Char16>, pos: nat, chunk: seq<Char16>)
    requires pos < buffer.Length && chunk == UpToNul(buffer[..pos]) && buffer[pos] == 0
    ensures HoldsString(buffer, chunk)
  {
    assert buffer[..|chunk|] == buffer[..pos][..|chunk|];
  }
}
