// SMBIOS structures, the string lookup that doubles as the walk to the next structure, and the search for the
// system record.

module Smbios {
  import opened Common

  /** A structure: its type, the formatted bytes behind type and length, and its strings. */
  datatype Structure = Structure(kind: Byte, fields: seq<Byte>, strings: seq<seq<Byte>>)

  datatype Pointer = Null | At(offset: nat)

  /** A string of at least one byte, none of them NUL. */
  predicate IsText(s: seq<Byte>) {
    s != [] && forall i :: 0 <= i < |s| ==> s[i] != 0
  }

  predicate Encodable(st: Structure) {
    2 <= |st.fields| <= 253 && forall i :: 0 <= i < |st.strings| ==> IsText(st.strings[i])
  }

  function Length(st: Structure): nat {
    2 + |st.fields|
  }

  /** Each string with its NUL, then one more NUL. */
  function Strings(strings: seq<seq<Byte>>): (r: seq<Byte>)
    ensures r != []
  {
    if strings == [] then [0] else strings[0] + ([0] + Strings(strings[1..]))
  }

  /** The unformatted section; a structure without strings ends in two NULs. */
  function Unformatted(st: Structure): (r: seq<Byte>)
    ensures |r| >= 2
  {
    if st.strings == [] then [0, 0] else Strings(st.strings)
  }

  function Encode(st: Structure): (r: seq<Byte>)
    requires Encodable(st)
    ensures |r| == Length(st) + |Unformatted(st)|
  {
    [st.kind, Length(st) as Byte] + st.fields + Unformatted(st)
  }

  /** Two structures of type 2 with one byte pair of fields: one with the strings "A" and "BC", one without strings. */
  lemma EncodedExamples()
    ensures var st := Structure(2, [7, 9], [[65], [66, 67]]);
      Encodable(st) && Encode(st) == [2, 4, 7, 9, 65, 0, 66, 67, 0, 0]
    ensures Encodable(Structure(2, [7, 9], [])) && Encode(Structure(2, [7, 9], [])) == [2, 4, 7, 9, 0, 0]
  {
    var texts: seq<seq<Byte>> := [[65], [66, 67]];
    assert texts[1..] == [[66, 67]] && texts[1..][1..] == [];
    assert Strings(texts[1..]) == [66, 67, 0, 0];
    assert Strings(texts) == [65, 0, 66, 67, 0, 0];
  }

  /** `part` lies in `bytes` at offset `at`. */
  predicate Holds(bytes: seq<Byte>, at: nat, part: seq<Byte>) {
    at + |part| <= |bytes| && bytes[at..at + |part|] == part
  }

  lemma HoldsSplit(bytes: seq<Byte>, at: nat, a: seq<Byte>, b: seq<Byte>)
    requires Holds(bytes, at, a + b)
    ensures Holds(bytes, at, a) && Holds(bytes, at + |a|, b)
  {
    assert bytes[at..at + |a|] == (a + b)[..|a|];
    assert bytes[at + |a|..at + |a| + |b|] == (a + b)[|a|..];
  }

  lemma HoldsFirst(bytes: seq<Byte>, at: nat, part: seq<Byte>)
    requires Holds(bytes, at, part) && part != []
    ensures at < |bytes| && bytes[at] == part[0]
  {
    assert bytes[at..at + |part|][0] == part[0];
  }

  lemma HoldsIndex(bytes: seq<Byte>, at: nat, part: seq<Byte>, i: nat)
    requires Holds(bytes, at, part) && i < |part|
    ensures at + i < |bytes| && bytes[at + i] == part[i]
  {
    assert bytes[at..at + |part|][i] == part[i];
  }

  lemma HoldsSlice(bytes: seq<Byte>, at: nat, part: seq<Byte>, a: nat, b: nat)
    requires Holds(bytes, at, part) && a < b <= |part|
    ensures at + b <= |bytes| && bytes[at + a..at + b] == part[a..b]
  {
    hide Holds;
    HoldsIndex(bytes, at, part, b - 1);
    forall i | 0 <= i < b - a
      ensures bytes[at + a..at + b][i] == part[a..b][i]
    {
      HoldsIndex(bytes, at, part, a + i);
    }
  }

  /** Where string `i` starts in the unformatted section; past the last string, where the final NUL lies. */
  function StringOffset(strings: seq<seq<Byte>>, i: nat): nat
    requires i <= |strings|
  {
    if i == 0 then 0 else |strings[0]| + 1 + StringOffset(strings[1..], i - 1)
  }

  lemma StringsSplit(strings: seq<seq<Byte>>)
    requires strings != []
    ensures Strings(strings) == (strings[0] + [0]) + Strings(strings[1..])
  {
  }

  lemma {:induction false} StringsFrom(bytes: seq<Byte>, at: nat, strings: seq<seq<Byte>>, i: nat)
    requires i <= |strings| && Holds(bytes, at, Strings(strings))
    ensures Holds(bytes, at + StringOffset(strings, i), Strings(strings[i..]))
    ensures |Strings(strings)| == StringOffset(strings, i) + |Strings(strings[i..])|
    decreases i
  {
    hide Holds, Strings;
    if i == 0 {
      assert strings[0..] == strings;
    } else {
      StringsSplit(strings);
      HoldsSplit(bytes, at, strings[0] + [0], Strings(strings[1..]));
      StringsFrom(bytes, at + |strings[0]| + 1, strings[1..], i - 1);
      assert strings[1..][i - 1..] == strings[i..];
    }
  }

  lemma FirstOffset(strings: seq<seq<Byte>>)
    ensures StringOffset(strings, 0) == 0
  {
  }

  lemma NextString(strings: seq<seq<Byte>>, i: nat)
    requires i < |strings|
    ensures StringOffset(strings, i + 1) == StringOffset(strings, i) + |strings[i]| + 1
  {
    if i > 0 {
      NextString(strings[1..], i - 1);
    }
  }

  /** What a call with string number `n` answers on a structure whose header lies at `at`. */
  function Answer(st: Structure, at: nat, n: nat): Pointer {
    if n == 0 then Null
    else if n <= |st.strings| then At(at + Length(st) + StringOffset(st.strings, n - 1))
    else if n == 1 then At(at + Length(st))
    else Null
  }

  /** Where the call leaves the cursor: on the next header when the number runs past the strings. */
  function CursorAfter(st: Structure, at: nat, n: nat): nat
    requires Encodable(st)
  {
    if n <= |st.strings| || n <= 1 then at else at + |Encode(st)|
  }

  lemma HeaderAt(bytes: seq<Byte>, st: Structure, at: nat)
    requires Encodable(st) && Holds(bytes, at, Encode(st))
    ensures at + 1 < |bytes| && bytes[at] == st.kind && bytes[at + 1] as nat == Length(st)
    ensures Holds(bytes, at + 2, st.fields)
    ensures Holds(bytes, at + Length(st), Unformatted(st))
  {
    hide Holds, Unformatted;
    HoldsIndex(bytes, at, Encode(st), 0);
    HoldsIndex(bytes, at, Encode(st), 1);
    HoldsSplit(bytes, at, [st.kind, Length(st) as Byte] + st.fields, Unformatted(st));
    HoldsSplit(bytes, at, [st.kind, Length(st) as Byte], st.fields);
  }

  /** The string answered for a number in range is that string, NUL-terminated in place. */
  lemma AnswerIsString(bytes: seq<Byte>, st: Structure, at: nat, n: nat)
    requires Encodable(st) && Holds(bytes, at, Encode(st)) && 1 <= n <= |st.strings|
    ensures Answer(st, at, n).At? && Holds(bytes, Answer(st, at, n).offset, st.strings[n - 1] + [0])
  {
    hide Holds, Encode, Strings, StringOffset;
    HeaderAt(bytes, st, at);
    StringsFrom(bytes, at + Length(st), st.strings, n - 1);
    var rest := st.strings[n - 1..];
    StringsSplit(rest);
    HoldsSplit(bytes, at + Length(st) + StringOffset(st.strings, n - 1), rest[0] + [0], Strings(rest[1..]));
  }

  /** On a structure without strings, string number 1 is answered with an empty string. */
  lemma NoStringIsEmpty(bytes: seq<Byte>, st: Structure, at: nat)
    requires Encodable(st) && Holds(bytes, at, Encode(st)) && st.strings == []
    ensures Answer(st, at, 1).At? && Holds(bytes, Answer(st, at, 1).offset, [0])
  {
    hide Holds, Encode, Strings;
    HeaderAt(bytes, st, at);
    assert Unformatted(st) == [0] + [0];
    HoldsSplit(bytes, at + Length(st), [0], [0]);
  }

  /** The answer and the cursor for every string number. */
  lemma Answered(bytes: seq<Byte>, st: Structure, at: nat, n: nat)
    requires Encodable(st) && Holds(bytes, at, Encode(st))
    ensures n == 0 ==> Answer(st, at, n) == Null && CursorAfter(st, at, n) == at
    ensures 1 <= n <= |st.strings| ==> CursorAfter(st, at, n) == at && Answer(st, at, n).At? &&
                                       Holds(bytes, Answer(st, at, n).offset, st.strings[n - 1] + [0])
    ensures n == 1 && st.strings == [] ==>
      CursorAfter(st, at, n) == at && Answer(st, at, n).At? && Holds(bytes, Answer(st, at, n).offset, [0])
    ensures n > 1 && n > |st.strings| ==> Answer(st, at, n) == Null && CursorAfter(st, at, n) == at + |Encode(st)|
  {
    hide Holds, Encode, Encodable;
    if 1 <= n <= |st.strings| {
      AnswerIsString(bytes, st, at, n);
    } else if n == 1 {
      NoStringIsEmpty(bytes, st, at);
    }
  }

  /** Skips to the NUL that ends the text at `start`. */
  method SkipText(bytes: seq<Byte>, start: nat, ghost text: seq<Byte>) returns (p: nat)
    requires Holds(bytes, start, text + [0]) && (text == [] || IsText(text))
    ensures p == start + |text|
  {
    p := start;
    HoldsIndex(bytes, start, text + [0], 0);
    while bytes[p] != 0
      invariant start <= p <= start + |text| && p < |bytes|
      invariant bytes[p] == (text + [0])[p - start]
      decreases |bytes| - p
    {
      HoldsIndex(bytes, start, text + [0], p - start + 1);
      p := p + 1;
    }
  }

  class StructurePointer {
    var raw: nat

    method GetString(bytes: seq<Byte>, number: nat, ghost st: Structure) returns (r: Pointer)
      requires number < 0x1_0000
      requires Encodable(st) && Holds(bytes, raw, Encode(st))
      modifies this
      ensures r == Answer(st, old(raw), number) && raw == CursorAfter(st, old(raw), number)
      ensures number == 0 ==> r == Null && raw == old(raw)
      ensures 1 <= number <= |st.strings| ==>
        raw == old(raw) && r.At? && Holds(bytes, r.offset, st.strings[number - 1] + [0])
      ensures number == 1 && st.strings == [] ==> raw == old(raw) && r.At? && Holds(bytes, r.offset, [0])
      ensures number > 1 && number > |st.strings| ==> r == Null && raw == old(raw) + |Encode(st)|
    {
      hide Holds, IsText, Encode, Strings, StringOffset, Unformatted;
      Answered(bytes, st, raw, number);
      HeaderAt(bytes, st, raw);
      var text := raw + bytes[raw + 1] as nat;
      ghost var base, k := text, |st.strings|;
      var index := 1;
      FirstOffset(st.strings);
      while index <= number
        invariant 1 <= index && (index == 1 || index <= k) && (index <= number || number == 0)
        invariant text == base + StringOffset(st.strings, index - 1)
        invariant raw == old(raw)
      {
        if number == index {
          return At(text);
        }
        ghost var current := if k == 0 then [] else st.strings[index - 1];
        TextAt(bytes, base, st, index);
        text := SkipText(bytes, text, current);
        text := text + 1;
        if bytes[text] == 0 {
          text := text + 1;
          raw := text;
          return Null;
        }
        index := index + 1;
      }
      return Null;
    }
  }

  lemma NoTextAt(bytes: seq<Byte>, base: nat, st: Structure)
    requires st.strings == [] && Holds(bytes, base, Unformatted(st))
    ensures Holds(bytes, base, [0]) && base + 1 < |bytes| && bytes[base + 1] == 0 && |Unformatted(st)| == 2
  {
    hide Holds;
    assert Unformatted(st) == [0] + [0];
    HoldsSplit(bytes, base, [0], [0]);
    HoldsFirst(bytes, base + 1, [0]);
  }

  lemma FirstOfStrings(strings: seq<seq<Byte>>)
    requires forall i :: 0 <= i < |strings| ==> IsText(strings[i])
    ensures Strings(strings)[0] == 0 <==> strings == []
    ensures strings == [] ==> |Strings(strings)| == 1
  {
    if strings != [] {
      assert IsText(strings[0]);
    }
  }

  lemma SomeTextAt(bytes: seq<Byte>, base: nat, strings: seq<seq<Byte>>, index: nat)
    requires 1 <= index <= |strings| && Holds(bytes, base, Strings(strings))
    requires forall i :: 0 <= i < |strings| ==> IsText(strings[i])
    ensures var at := base + StringOffset(strings, index - 1);
      && Holds(bytes, at, strings[index - 1] + [0])
      && at + |strings[index - 1]| + 1 == base + StringOffset(strings, index) < |bytes|
      && (bytes[base + StringOffset(strings, index)] == 0 <==> index == |strings|)
      && (index == |strings| ==> StringOffset(strings, index) + 1 == |Strings(strings)|)
  {
    hide Holds, Strings, StringOffset, IsText;
    StringsFrom(bytes, base, strings, index - 1);
    StringsFrom(bytes, base, strings, index);
    NextString(strings, index - 1);
    var rest := strings[index - 1..];
    assert rest[1..] == strings[index..];
    StringsSplit(rest);
    HoldsSplit(bytes, base + StringOffset(strings, index - 1), rest[0] + [0], Strings(rest[1..]));
    HoldsFirst(bytes, base + StringOffset(strings, index), Strings(rest[1..]));
    FirstOfStrings(rest[1..]);
  }

  /** Around string `index`: the text with its NUL, and behind it the next string or the end of the structure. */
  lemma TextAt(bytes: seq<Byte>, base: nat, st: Structure, index: nat)
    requires Encodable(st) && Holds(bytes, base, Unformatted(st))
    requires 1 <= index && (index == 1 || index <= |st.strings|)
    ensures var text := if st.strings == [] then [] else st.strings[index - 1];
      var at := base + StringOffset(st.strings, index - 1);
      && Holds(bytes, at, text + [0])
      && at + |text| + 1 < |bytes|
      && (bytes[at + |text| + 1] == 0 <==> index >= |st.strings|)
      && (index >= |st.strings| ==> at + |text| + 2 == base + |Unformatted(st)|)
      && (index < |st.strings| ==> at + |text| + 1 == base + StringOffset(st.strings, index))
  {
    if st.strings == [] {
      hide Holds, Unformatted, Strings;
      NoTextAt(bytes, base, st);
      assert [] + [0] == [0];
    } else {
      hide Holds, Strings, StringOffset, IsText;
      SomeTextAt(bytes, base, st.strings, index);
    }
  }

  // ---- Tables ----

  predicate AllEncodable(structures: seq<Structure>) {
    forall i :: 0 <= i < |structures| ==> Encodable(structures[i])
  }

  function EncodeAll(structures: seq<Structure>): seq<Byte>
    requires AllEncodable(structures)
  {
    if structures == [] then [] else Encode(structures[0]) + EncodeAll(structures[1..])
  }

  /** Where structure `i` starts; for `i` the number of structures, where the table ends. */
  function HeaderOffset(structures: seq<Structure>, i: nat): nat
    requires AllEncodable(structures) && i <= |structures|
  {
    if i == 0 then 0 else |Encode(structures[0])| + HeaderOffset(structures[1..], i - 1)
  }

  lemma {:induction false} TableFrom(bytes: seq<Byte>, at: nat, structures: seq<Structure>, i: nat)
    requires AllEncodable(structures) && i <= |structures| && Holds(bytes, at, EncodeAll(structures))
    ensures Holds(bytes, at + HeaderOffset(structures, i), EncodeAll(structures[i..]))
    ensures |EncodeAll(structures)| == HeaderOffset(structures, i) + |EncodeAll(structures[i..])|
    decreases i
  {
    hide Holds, Encode;
    if i == 0 {
      assert structures[0..] == structures;
    } else {
      HoldsSplit(bytes, at, Encode(structures[0]), EncodeAll(structures[1..]));
      TableFrom(bytes, at + |Encode(structures[0])|, structures[1..], i - 1);
      assert structures[1..][i - 1..] == structures[i..];
    }
  }

  /** Structure `i` lies at its offset, and the next one right behind it. */
  lemma StructureAt(bytes: seq<Byte>, at: nat, structures: seq<Structure>, i: nat)
    requires AllEncodable(structures) && i < |structures| && Holds(bytes, at, EncodeAll(structures))
    ensures Holds(bytes, at + HeaderOffset(structures, i), Encode(structures[i]))
    ensures HeaderOffset(structures, i + 1) == HeaderOffset(structures, i) + |Encode(structures[i])|
  {
    hide Holds, Encode, HeaderOffset;
    TableFrom(bytes, at, structures, i);
    TableFrom(bytes, at, structures, i + 1);
    assert structures[i..][1..] == structures[i + 1..];
    HoldsSplit(bytes, at + HeaderOffset(structures, i), Encode(structures[i]), EncodeAll(structures[i + 1..]));
  }

  /** String number -1 moves the cursor to the next header exactly when there are fewer than 65535 strings. */
  lemma SkipMoves(st: Structure, at: nat)
    requires Encodable(st)
    ensures CursorAfter(st, at, 0xFFFF) == at + |Encode(st)| <==> |st.strings| < 0xFFFF
    ensures |st.strings| < 0xFFFF ==> Answer(st, at, 0xFFFF) == Null
  {
  }

  /** With 65535 strings, number -1 is the number of the last string, and the cursor stays. */
  lemma ManyStringsStay(at: nat)
    ensures var st := Structure(0, [0, 0], seq(0xFFFF, _ => [1]));
      Encodable(st) && CursorAfter(st, at, 0xFFFF) == at && Answer(st, at, 0xFFFF).At?
  {
    var st := Structure(0, [0, 0], seq(0xFFFF, _ => [1]));
    assert forall i :: 0 <= i < |st.strings| ==> IsText(st.strings[i]);
    hide StringOffset, Strings, Unformatted;
    assert Encodable(st);
  }

  /** Where the cursor stands after `k` calls with string number -1 from the start of a table. */
  function CursorAfterSkips(structures: seq<Structure>, at: nat, k: nat): nat
    requires AllEncodable(structures) && k <= |structures|
  {
    if k == 0 then at else CursorAfter(structures[k - 1], CursorAfterSkips(structures, at, k - 1), 0xFFFF)
  }

  lemma {:induction false} SkipsAddUp(bytes: seq<Byte>, at: nat, structures: seq<Structure>, k: nat)
    requires AllEncodable(structures) && Holds(bytes, at, EncodeAll(structures)) && k <= |structures|
    requires forall i :: 0 <= i < |structures| ==> |structures[i].strings| < 0xFFFF
    ensures CursorAfterSkips(structures, at, k) == at + HeaderOffset(structures, k)
    decreases k
  {
    hide Encode, EncodeAll, Holds, HeaderOffset, Encodable, CursorAfter, AllEncodable;
    NoSkips(structures, at);
    if k > 0 {
      SkipsAddUp(bytes, at, structures, k - 1);
      StructureAt(bytes, at, structures, k - 1);
      EncodableAt(structures, k - 1);
      SkipMoves(structures[k - 1], CursorAfterSkips(structures, at, k - 1));
    }
  }

  /**
   * Calls with string number -1 visit every structure of a table in order: after `k` of them the cursor stands
   * exactly on the header of structure `k`, and after all of them at the end of the table.
   */
  lemma SkipsVisitAll(bytes: seq<Byte>, at: nat, structures: seq<Structure>, k: nat)
    requires AllEncodable(structures) && Holds(bytes, at, EncodeAll(structures)) && k <= |structures|
    requires forall i :: 0 <= i < |structures| ==> |structures[i].strings| < 0xFFFF
    ensures CursorAfterSkips(structures, at, k) == at + HeaderOffset(structures, k)
    ensures k < |structures| ==> Holds(bytes, CursorAfterSkips(structures, at, k), Encode(structures[k]))
    ensures k == |structures| ==> CursorAfterSkips(structures, at, k) == at + |EncodeAll(structures)|
  {
    hide Encode, EncodeAll, Holds, HeaderOffset, Encodable, CursorAfterSkips;
    SkipsAddUp(bytes, at, structures, k);
    if k < |structures| {
      StructureAt(bytes, at, structures, k);
    } else {
      TableEnd(bytes, at, structures);
    }
  }

  lemma NoSkips(structures: seq<Structure>, at: nat)
    requires AllEncodable(structures)
    ensures CursorAfterSkips(structures, at, 0) == at + HeaderOffset(structures, 0)
  {
  }

  // ---- The system record ----

  const SYSTEM: Byte := 1
  const SYSTEM_LENGTH := 0x19

  /** The UUID and the serial number string of the system record, when one is reported. */
  datatype SystemInfo = NoInfo | Info(uuid: seq<Byte>, serial: Pointer)

  /** The index of the first system record whose header lies before `limit`. */
  function FirstSystem(structures: seq<Structure>, limit: int): Option<nat>
    requires AllEncodable(structures)
  {
    if structures == [] || limit <= 0 then None
    else if structures[0].kind == SYSTEM then Some(0)
    else
      var rest := FirstSystem(structures[1..], limit - |Encode(structures[0])|);
      if rest.None? then None else Some(rest.value + 1)
  }

  function Report(structures: seq<Structure>, at: nat, limit: int): (r: SystemInfo)
    requires AllEncodable(structures)
  {
    var first := FirstSystem(structures, limit);
    if first.None? || first.value >= |structures| || Length(structures[first.value]) < SYSTEM_LENGTH then NoInfo
    else
      var st := structures[first.value];
      Info(st.fields[6..22], Answer(st, at + HeaderOffset(structures, first.value), st.fields[5] as nat))
  }

  /** Before the first system record: none of the first `i` structures is one. */
  lemma {:induction false} FirstSystemAt(structures: seq<Structure>, limit: int, i: nat)
    requires AllEncodable(structures) && i <= |structures|
    requires forall j :: 0 <= j < i ==> structures[j].kind != SYSTEM
    ensures i < |structures| && structures[i].kind == SYSTEM && HeaderOffset(structures, i) < limit ==>
            FirstSystem(structures, limit) == Some(i)
    ensures HeaderOffset(structures, i) >= limit || i == |structures| ==> FirstSystem(structures, limit) == None
    decreases i
  {
    hide Encode, Encodable;
    if i > 0 && limit > 0 {
      FirstSystemAt(structures[1..], limit - |Encode(structures[0])|, i - 1);
    }
  }

  lemma {:induction false} OffsetGrows(structures: seq<Structure>, i: nat)
    requires AllEncodable(structures) && i <= |structures|
    ensures i <= HeaderOffset(structures, i)
    decreases i
  {
    hide Encode;
    if i > 0 {
      OffsetGrows(structures[1..], i - 1);
    }
  }

  /** The first `i` structures hold no system record, and the cursor stands on structure `i`. */
  ghost predicate Walking(structures: seq<Structure>, i: nat, at: nat, raw: nat, limit: nat) {
    AllEncodable(structures) && i < |structures| && raw == at + HeaderOffset(structures, i) < at + limit &&
    forall j :: 0 <= j < i ==> structures[j].kind != SYSTEM
  }

  predicate IsShortSystem(st: Structure) {
    st.kind == SYSTEM && Length(st) < SYSTEM_LENGTH
  }

  lemma ReportHere(bytes: seq<Byte>, structures: seq<Structure>, i: nat, at: nat, raw: nat, limit: nat)
    requires Walking(structures, i, at, raw, limit) && Holds(bytes, raw, Encode(structures[i]))
    requires structures[i].kind == SYSTEM && Length(structures[i]) >= SYSTEM_LENGTH
    ensures raw + 24 <= |bytes| && bytes[raw + 7] == structures[i].fields[5]
    ensures Report(structures, at, limit) ==
            Info(bytes[raw + 8..raw + 24], Answer(structures[i], raw, bytes[raw + 7] as nat))
  {
    hide Encode, HeaderOffset, FirstSystem, Answer, Holds;
    FirstSystemAt(structures, limit, i);
    HeaderAt(bytes, structures[i], raw);
    HoldsIndex(bytes, raw + 2, structures[i].fields, 5);
    HoldsSlice(bytes, raw + 2, structures[i].fields, 6, 22);
  }

  lemma ReportNothing(structures: seq<Structure>, i: nat, at: nat, limit: nat)
    requires AllEncodable(structures) && i <= |structures|
    requires forall j :: 0 <= j < i ==> structures[j].kind != SYSTEM
    requires HeaderOffset(structures, i) >= limit || i == |structures| || IsShortSystem(structures[i])
    ensures Report(structures, at, limit) == NoInfo
  {
    hide Encode, HeaderOffset, FirstSystem, Answer;
    FirstSystemAt(structures, limit, i);
  }

  /** Stepping over a structure that is no system record. */
  lemma WalkOn(bytes: seq<Byte>, structures: seq<Structure>, i: nat, at: nat, raw: nat, limit: nat)
    requires Walking(structures, i, at, raw, limit) && Holds(bytes, at, EncodeAll(structures))
    requires limit <= |EncodeAll(structures)| && structures[i].kind != SYSTEM && |structures[i].strings| < 0xFFFF
    ensures var next := CursorAfter(structures[i], raw, 0xFFFF);
      next == at + HeaderOffset(structures, i + 1) &&
      (next < at + limit ==> Walking(structures, i + 1, at, next, limit))
  {
    hide Encode, HeaderOffset, Holds, EncodeAll;
    StructureAt(bytes, at, structures, i);
    SkipMoves(structures[i], raw);
    TableEnd(bytes, at, structures);
  }

  lemma TableEnd(bytes: seq<Byte>, at: nat, structures: seq<Structure>)
    requires AllEncodable(structures) && Holds(bytes, at, EncodeAll(structures))
    ensures HeaderOffset(structures, |structures|) == |EncodeAll(structures)|
  {
    hide Encode, HeaderOffset, Holds;
    TableFrom(bytes, at, structures, |structures|);
  }

  /** The loop's progress: on structure `i` after `i` turns, or stuck on a short system record. */
  ghost predicate Searching(structures: seq<Structure>, i: nat, at: nat, raw: nat, limit: nat, index: nat) {
    AllEncodable(structures) &&
    if limit == 0 then index == 0 else
      Walking(structures, i, at, raw, limit) && i <= index <= limit && (index == i || IsShortSystem(structures[i]))
  }

  lemma SearchStarts(structures: seq<Structure>, at: nat, limit: nat)
    requires AllEncodable(structures) && limit <= |EncodeAll(structures)|
    ensures Searching(structures, 0, at, at, limit, 0)
  {
  }

  lemma SearchEnds(structures: seq<Structure>, i: nat, at: nat, raw: nat, limit: nat)
    requires Searching(structures, i, at, raw, limit, limit)
    ensures Report(structures, at, limit) == NoInfo
  {
    hide Encode, EncodeAll, Report, FirstSystem;
    if limit == 0 {
      ReportNothing(structures, 0, at, limit);
    } else {
      OffsetGrows(structures, i);
      ReportNothing(structures, i, at, limit);
    }
  }

  method GetSystemInfo(bytes: seq<Byte>, at: nat, tableLength: nat, ghost structures: seq<Structure>)
      returns (info: SystemInfo)
    requires tableLength < 0x1_0000
    requires AllEncodable(structures) && Holds(bytes, at, EncodeAll(structures))
    requires tableLength <= |EncodeAll(structures)|
    requires forall i :: 0 <= i < |structures| ==> |structures[i].strings| < 0xFFFF
    ensures info == Report(structures, at, tableLength)
    ensures ReportsFirst(bytes, structures, at, tableLength, info)
  {
    hide Encode, Holds, EncodeAll, HeaderOffset, Report, Answer, CursorAfter, Length, Encodable, AllEncodable,
         ReportsFirst;
    ReportsAll(bytes, structures, at, tableLength);
    var smbios := new StructurePointer;
    smbios.raw := at;
    var index := 0;
    ghost var i := 0;
    SearchStarts(structures, at, tableLength);
    while index < tableLength
      invariant 0 <= index <= tableLength
      invariant Searching(structures, i, at, smbios.raw, tableLength, index)
    {
      assert Encodable(structures[i]) by {
        EncodableAt(structures, i);
      }
      StructureAt(bytes, at, structures, i);
      HeaderAt(bytes, structures[i], smbios.raw);
      if bytes[smbios.raw] == SYSTEM {
        if bytes[smbios.raw + 1] as nat >= SYSTEM_LENGTH {
          ReportHere(bytes, structures, i, at, smbios.raw, tableLength);
          var uuid := bytes[smbios.raw + 8..smbios.raw + 24];
          var serial := smbios.GetString(bytes, bytes[smbios.raw + 7] as nat, structures[i]);
          return Info(uuid, serial);
        }
      } else {
        WalkOn(bytes, structures, i, at, smbios.raw, tableLength);
        var _ := smbios.GetString(bytes, 0xFFFF, structures[i]);
        i := i + 1;
        if smbios.raw >= at + tableLength {
          WalkedOff(structures, i, at, smbios.raw, tableLength);
          return NoInfo;
        }
      }
      index := index + 1;
    }
    SearchEnds(structures, i, at, smbios.raw, tableLength);
    return NoInfo;
  }

  lemma ReportsAll(bytes: seq<Byte>, structures: seq<Structure>, at: nat, limit: nat)
    requires AllEncodable(structures) && Holds(bytes, at, EncodeAll(structures))
    ensures ReportsFirst(bytes, structures, at, limit, Report(structures, at, limit))
  {
    hide Encode, EncodeAll, Holds, HeaderOffset, Report, Reports, AllEncodable;
    ReportedWhen(structures, at, limit);
    forall i: nat | Reachable(structures, i, limit)
      ensures Reports(bytes, at + HeaderOffset(structures, i), structures[i], Report(structures, at, limit))
    {
      ReportedIs(bytes, structures, at, limit, i);
    }
  }

  lemma EncodableAt(structures: seq<Structure>, i: nat)
    requires AllEncodable(structures) && i < |structures|
    ensures Encodable(structures[i])
  {
  }

  lemma WalkedOff(structures: seq<Structure>, i: nat, at: nat, raw: nat, limit: nat)
    requires AllEncodable(structures) && i <= |structures| && raw == at + HeaderOffset(structures, i) >= at + limit
    requires forall j :: 0 <= j < i ==> structures[j].kind != SYSTEM
    ensures Report(structures, at, limit) == NoInfo
  {
    hide Encode, EncodeAll, Report, FirstSystem, HeaderOffset;
    ReportNothing(structures, i, at, limit);
  }

  /** Structure `i` is a complete system record with no system record in front of it. */
  predicate Reachable(structures: seq<Structure>, i: nat, limit: int)
    requires AllEncodable(structures)
  {
    i < |structures| && HeaderOffset(structures, i) < limit && structures[i].kind == 1 &&
    Length(structures[i]) >= 0x19 && forall j :: 0 <= j < i ==> structures[j].kind != 1
  }

  /**
   * The 16 bytes at offset 8 of the header at `h` are the UUID, and the byte at offset 7 is the number of the serial
   * string: one of the strings, none for 0, an empty one for 1 of none.
   */
  ghost predicate Reports(bytes: seq<Byte>, h: nat, st: Structure, info: SystemInfo) {
    && info.Info? && h + 24 <= |bytes| && info.uuid == bytes[h + 8..h + 24]
    && var n := bytes[h + 7] as nat;
    && (1 <= n <= |st.strings| ==> info.serial.At? && Holds(bytes, info.serial.offset, st.strings[n - 1] + [0]))
    && (n == 1 && st.strings == [] ==> info.serial.At? && Holds(bytes, info.serial.offset, [0]))
    && (n == 0 || (n > 1 && n > |st.strings|) ==> info.serial == Null)
  }

  /** The first system record is reported when it is complete, and nothing otherwise. */
  ghost predicate ReportsFirst(bytes: seq<Byte>, structures: seq<Structure>, at: nat, limit: nat, info: SystemInfo)
    requires AllEncodable(structures)
  {
    && (forall i: nat :: Reachable(structures, i, limit) ==>
          Reports(bytes, at + HeaderOffset(structures, i), structures[i], info))
    && ((forall i: nat :: !Reachable(structures, i, limit)) ==> info == NoInfo)
  }

  lemma ReportedIs(bytes: seq<Byte>, structures: seq<Structure>, at: nat, limit: nat, i: nat)
    requires AllEncodable(structures) && Holds(bytes, at, EncodeAll(structures)) && Reachable(structures, i, limit)
    ensures Reports(bytes, at + HeaderOffset(structures, i), structures[i], Report(structures, at, limit))
  {
    hide Encode, EncodeAll, Holds, HeaderOffset, Report, Answer, CursorAfter, Encodable;
    var h := at + HeaderOffset(structures, i);
    StructureAt(bytes, at, structures, i);
    ReportHere(bytes, structures, i, at, h, limit);
    EncodableAt(structures, i);
    Answered(bytes, structures[i], h, bytes[h + 7] as nat);
  }

  /** A system record is reported exactly when a complete one is reached before any short one. */
  lemma ReportedWhen(structures: seq<Structure>, at: nat, limit: int)
    requires AllEncodable(structures)
    ensures Report(structures, at, limit).Info? <==> exists i: nat :: Reachable(structures, i, limit)
  {
    hide Encode, Answer;
    if i: nat :| Reachable(structures, i, limit) {
      FirstSystemAt(structures, limit, i);
    }
    if FirstSystem(structures, limit).Some? {
      SystemIsFirst(structures, limit);
      if Report(structures, at, limit).Info? {
        assert Reachable(structures, FirstSystem(structures, limit).value, limit);
      }
    }
  }

  lemma {:induction false} SystemIsFirst(structures: seq<Structure>, limit: int)
    requires AllEncodable(structures) && FirstSystem(structures, limit).Some?
    ensures var i := FirstSystem(structures, limit).value;
      i < |structures| && HeaderOffset(structures, i) < limit && structures[i].kind == SYSTEM &&
      forall j :: 0 <= j < i ==> structures[j].kind != SYSTEM
  {
    hide Encode, Encodable;
    if structures[0].kind != SYSTEM {
      var rest, left := structures[1..], limit - |Encode(structures[0])|;
      SystemIsFirst(rest, left);
      assert FirstSystem(structures, limit).value == FirstSystem(rest, left).value + 1;
    }
  }

  /** A short system record in front hides a complete one behind it. */
  lemma ShortHides(short: Structure, full: Structure, at: nat, limit: int)
    requires Encodable(short) && Encodable(full) && IsShortSystem(short)
    requires full.kind == SYSTEM && Length(full) >= SYSTEM_LENGTH && 0 < limit
    ensures Report([short, full], at, limit) == NoInfo && Report([full], at, limit).Info?
  {
    hide Encode, Answer;
    FirstSystemAt([short, full], limit, 0);
    FirstSystemAt([full], limit, 0);
  }
}
