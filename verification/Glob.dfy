/** MetaMatch of gnu-efi/lib/str.c, a backtracking matcher, against the language
    of its patterns: star, any-one, character sets with ranges, literals.

    A set runs from '[' to the first ']' after it.  Patterns whose sets are not
    all closed are outside the model: on those the matcher steps over the
    pattern's terminator. */
module Glob {
  import opened Chars
  import opened Common

  // ---- Patterns and their language ------------------------------------------

  datatype Piece = AnyRun | AnyOne | CharSet(body: seq<Char16>) | Literal(c: Char16)

  /** Position of the first ']' of p, or |p|. */
  function CloseAt(p: seq<Char16>): (k: nat)
    ensures k <= |p|
    ensures forall i | 0 <= i < k :: p[i] != CLOSE
    ensures k < |p| ==> p[k] == CLOSE
  {
    if p == [] || p[0] == CLOSE then 0 else
      var k := CloseAt(p[1..]);
      assert forall i | 0 < i < k + 1 :: p[i] == p[1..][i - 1];
      1 + k
  }

  predicate Closed(p: seq<Char16>)
    decreases |p|
  {
    if p == [] then true
    else if p[0] == OPEN then CloseAt(p[1..]) < |p| - 1 && Closed(p[CloseAt(p[1..]) + 2..])
    else Closed(p[1..])
  }

  function Parse(p: seq<Char16>): seq<Piece>
    requires Closed(p)
    decreases |p|
  {
    if p == [] then []
    else if p[0] == STAR then [AnyRun] + Parse(p[1..])
    else if p[0] == QUESTION then [AnyOne] + Parse(p[1..])
    else if p[0] == OPEN then
      var k := CloseAt(p[1..]);
      [CharSet(p[1..][..k])] + Parse(p[k + 2..])
    else [Literal(p[0])] + Parse(p[1..])
  }

  /** Member i of a set body admits c: a '-' spans from the member before it (or
      from the lowest character, when it comes first) to the member after it,
      and a '-' with nothing after it admits nothing. */
  predicate Admits(body: seq<Char16>, i: nat, c: Char16)
    requires i < |body|
  {
    if body[i] == MINUS then
      i + 1 < |body| && ((if i == 0 then 0 else body[i - 1]) <= c <= body[i + 1] || c == body[i + 1])
    else c == body[i]
  }

  predicate InSet(body: seq<Char16>, c: Char16) {
    exists i | 0 <= i < |body| :: Admits(body, i, c)
  }

  predicate Spells(piece: Piece, word: seq<Char16>) {
    match piece
    case AnyRun => true
    case AnyOne => |word| == 1
    case CharSet(body) => |word| == 1 && InSet(body, word[0])
    case Literal(c) => word == [c]
  }

  function Concat(words: seq<seq<Char16>>): seq<Char16> {
    if words == [] then [] else words[0] + Concat(words[1..])
  }

  ghost predicate Reading(pieces: seq<Piece>, s: seq<Char16>, words: seq<seq<Char16>>) {
    && |words| == |pieces| && Concat(words) == s
    && forall i | 0 <= i < |pieces| :: Spells(pieces[i], words[i])
  }

  /** s is in the language: it splits into one word for each piece in turn. */
  ghost predicate InLanguage(pieces: seq<Piece>, s: seq<Char16>) {
    exists words :: Reading(pieces, s, words)
  }

  // ---- The language piece by piece ------------------------------------------

  lemma EmptyPattern(s: seq<Char16>)
    ensures InLanguage([], s) <==> s == []
  {
    if s == [] {
      assert Reading([], s, []);
    }
  }

  lemma ReadingTail(pieces: seq<Piece>, s: seq<Char16>, words: seq<seq<Char16>>)
    requires pieces != [] && Reading(pieces, s, words)
    ensures words != []
    ensures |words[0]| <= |s| && s[..|words[0]|] == words[0] && Spells(pieces[0], words[0])
    ensures InLanguage(pieces[1..], s[|words[0]|..])
  {
    assert s == words[0] + Concat(words[1..]);
    assert Reading(pieces[1..], s[|words[0]|..], words[1..]);
  }

  lemma ReadingCons(piece: Piece, rest: seq<Piece>, s: seq<Char16>, k: nat)
    requires k <= |s| && Spells(piece, s[..k]) && InLanguage(rest, s[k..])
    ensures InLanguage([piece] + rest, s)
  {
    var words :| Reading(rest, s[k..], words);
    var all := [s[..k]] + words;
    assert all[1..] == words && Concat(all) == s[..k] + s[k..] == s;
    assert Reading([piece] + rest, s, all);
  }

  lemma SinglePattern(piece: Piece, rest: seq<Piece>, s: seq<Char16>)
    requires !piece.AnyRun?
    ensures InLanguage([piece] + rest, s) <==> s != [] && Spells(piece, [s[0]]) && InLanguage(rest, s[1..])
  {
    var pieces := [piece] + rest;
    assert pieces[1..] == rest;
    if InLanguage(pieces, s) {
      var words :| Reading(pieces, s, words);
      ReadingTail(pieces, s, words);
      assert words[0] == [s[0]];
    }
    if s != [] && Spells(piece, [s[0]]) && InLanguage(rest, s[1..]) {
      assert s[..1] == [s[0]];
      ReadingCons(piece, rest, s, 1);
    }
  }

  // ---- What a set holds -----------------------------------------------------

  /** A range holds the characters from lo to hi, and its two ends even when hi comes before lo. */
  lemma RangeSet(lo: Char16, hi: Char16, c: Char16)
    requires lo != 0x2D && hi != 0x2D
    ensures InSet([lo, 0x2D, hi], c) <==> lo <= c <= hi || c == lo || c == hi
  {
    var body := [lo, 0x2D, hi];
    assert body[0] == lo && body[1] == 0x2D && body[2] == hi;
    if lo <= c <= hi {
      assert Admits(body, 1, c);
    }
    if c == lo {
      assert Admits(body, 0, c);
    }
    if c == hi {
      assert Admits(body, 2, c);
    }
  }

  /** Without a '-' a set holds exactly its members. */
  lemma MemberSet(body: seq<Char16>, c: Char16)
    requires 0x2D !in body
    ensures InSet(body, c) <==> c in body
  {
    if c in body {
      var i :| 0 <= i < |body| && body[i] == c;
      assert Admits(body, i, c);
    }
  }

  /** A '-' in front spans from the lowest character. */
  lemma LeadingMinus(hi: Char16, c: Char16)
    requires hi != 0x2D
    ensures InSet([0x2D, hi], c) <==> c <= hi
  {
    var body := [0x2D, hi];
    assert body[0] == 0x2D && body[1] == hi;
    assert Admits(body, 0, c) <==> c <= hi;
  }

  /** A '-' at the end holds nothing. */
  lemma TrailingMinus(body: seq<Char16>, c: Char16)
    requires body == [] || body[|body| - 1] != 0x2D
    ensures InSet(body + [0x2D], c) <==> InSet(body, c)
  {
    var all := body + [0x2D];
    forall i | 0 <= i < |body|
      ensures Admits(all, i, c) == Admits(body, i, c)
    {
    }
    assert !Admits(all, |body|, c);
  }

  /** Members and ranges written one after the other hold what each of them holds. */
  lemma UnionSet(a: seq<Char16>, b: seq<Char16>, c: Char16)
    requires a == [] || a[|a| - 1] != 0x2D
    requires b == [] || b[0] != 0x2D
    ensures InSet(a + b, c) <==> InSet(a, c) || InSet(b, c)
  {
    hide Admits;
    if i :| 0 <= i < |a| && Admits(a, i, c) {
      AdmitsBefore(a, b, i, c);
    }
    if i :| 0 <= i < |b| && Admits(b, i, c) {
      AdmitsBehind(a, b, i, c);
      assert Admits(a + b, |a| + i, c);
    }
    if i :| 0 <= i < |a + b| && Admits(a + b, i, c) {
      if i < |a| {
        AdmitsBefore(a, b, i, c);
      } else {
        AdmitsBehind(a, b, i - |a|, c);
        assert Admits(b, i - |a|, c);
      }
    }
  }

  lemma AdmitsBefore(a: seq<Char16>, b: seq<Char16>, i: nat, c: Char16)
    requires i < |a| && a[|a| - 1] != 0x2D
    ensures Admits(a + b, i, c) <==> Admits(a, i, c)
  {
  }

  lemma AdmitsBehind(a: seq<Char16>, b: seq<Char16>, i: nat, c: Char16)
    requires i < |b| && b[0] != 0x2D
    ensures Admits(a + b, |a| + i, c) <==> Admits(b, i, c)
  {
  }

  // ---- Patterns as texts ----------------------------------------------------

  ghost predicate Matches(p: seq<Char16>, s: seq<Char16>)
    requires Closed(p)
  {
    InLanguage(Parse(p), s)
  }

  lemma OneCharacter(c: Char16)
    requires c != OPEN
    ensures Closed([c])
    ensures Parse([c]) == [if c == STAR then AnyRun else if c == QUESTION then AnyOne else Literal(c)] + []
  {
    ParseFirst([c]);
    assert [c][1..] == [] && Parse([]) == [];
  }

  lemma ParseFirst(p: seq<Char16>)
    requires p != [] && p[0] != OPEN
    ensures Closed(p) <==> Closed(p[1..])
    ensures Closed(p) ==>
      Parse(p) ==
        [if p[0] == STAR then AnyRun else if p[0] == QUESTION then AnyOne else Literal(p[0])] + Parse(p[1..])
  {
  }

  /** The star matches every string, ... */
  lemma StarMatches(s: seq<Char16>)
    ensures Closed([0x2A]) && Matches([0x2A], s)
  {
    OneCharacter(0x2A);
    EmptyPattern([]);
    assert s[|s|..] == [];
    ReadingCons(AnyRun, [], s, |s|);
  }

  /** ... the question mark every single character, ... */
  lemma QuestionMatches(s: seq<Char16>)
    ensures Closed([0x3F]) && (Matches([0x3F], s) <==> |s| == 1)
  {
    OneCharacter(0x3F);
    OnePiece(AnyOne, s);
  }

  /** ... a character without special meaning itself, ... */
  lemma CharacterMatches(c: Char16, s: seq<Char16>)
    requires c != 0x2A && c != 0x3F && c != 0x5B
    ensures Closed([c]) && (Matches([c], s) <==> s == [c])
  {
    OneCharacter(c);
    OnePiece(Literal(c), s);
  }

  /** ... and a set every single character that it holds. */
  lemma SetMatches(body: seq<Char16>, s: seq<Char16>)
    requires 0x5D !in body
    ensures Closed([0x5B] + body + [0x5D])
    ensures Matches([0x5B] + body + [0x5D], s) <==> |s| == 1 && InSet(body, s[0])
  {
    var p := [0x5B] + body + [0x5D];
    assert p[1..] == body + [0x5D];
    ClosedBehind(body, []);
    assert body + [0x5D] + [] == body + [0x5D];
    assert p[|body| + 2..] == [] && (body + [0x5D])[..|body|] == body;
    assert Parse(p) == [CharSet(body)] + [];
    OnePiece(CharSet(body), s);
  }

  lemma ClosedBehind(body: seq<Char16>, rest: seq<Char16>)
    requires 0x5D !in body
    ensures CloseAt(body + [0x5D] + rest) == |body|
  {
    var p := body + [0x5D] + rest;
    assert p[|body|] == 0x5D;
    assert forall i | 0 <= i < |body| :: p[i] == body[i];
  }

  lemma OnePiece(piece: Piece, s: seq<Char16>)
    requires !piece.AnyRun?
    ensures InLanguage([piece] + [], s) <==> |s| == 1 && Spells(piece, s)
  {
    SinglePattern(piece, [], s);
    if s != [] {
      EmptyPattern(s[1..]);
      assert |s| == 1 ==> s == [s[0]];
    }
  }

  /** Patterns written one after the other match strings written one after the other. */
  lemma PatternsInTurn(p: seq<Char16>, q: seq<Char16>, s: seq<Char16>)
    requires Closed(p) && Closed(q)
    ensures Closed(p + q)
    ensures Matches(p + q, s) <==> exists k :: 0 <= k <= |s| && Matches(p, s[..k]) && Matches(q, s[k..])
  {
    ParseInTurn(p, q);
    LanguageInTurn(Parse(p), Parse(q), s);
  }

  lemma {:induction false} ParseInTurn(p: seq<Char16>, q: seq<Char16>)
    requires Closed(p) && Closed(q)
    ensures Closed(p + q) && Parse(p + q) == Parse(p) + Parse(q)
    decreases |p|
  {
    hide Parse, Closed, CloseAt;
    var all := p + q;
    if p == [] {
      NoPattern();
      assert all == q && [] + Parse(q) == Parse(q);
    } else if p[0] == OPEN {
      var k := CloseAt(p[1..]);
      ParseOpen(p);
      CloseBefore(p[1..], q);
      ParseInTurn(p[k + 2..], q);
      SetBefore(p, q, k);
      ClosedOpen(all);
      ParseOpen(all);
      Associative([CharSet(p[1..][..k])], Parse(p[k + 2..]), Parse(q));
    } else {
      FirstBefore(p, q);
      ParseFirst(p);
      ParseFirst(all);
      ParseInTurn(p[1..], q);
      Associative([if p[0] == STAR then AnyRun else if p[0] == QUESTION then AnyOne else Literal(p[0])],
                  Parse(p[1..]), Parse(q));
    }
  }

  lemma FirstBefore(p: seq<Char16>, q: seq<Char16>)
    requires p != []
    ensures (p + q)[0] == p[0] && (p + q)[1..] == p[1..] + q
  {
  }

  lemma SetBefore(p: seq<Char16>, q: seq<Char16>, k: nat)
    requires k + 2 <= |p|
    ensures (p + q)[0] == p[0] && (p + q)[1..] == p[1..] + q
    ensures (p + q)[k + 2..] == p[k + 2..] + q && (p + q)[1..][..k] == p[1..][..k]
  {
  }

  lemma NoPattern()
    ensures Closed([]) && Parse([]) == []
  {
  }

  lemma ClosedOpen(p: seq<Char16>)
    requires p != [] && p[0] == OPEN && CloseAt(p[1..]) < |p| - 1 && Closed(p[CloseAt(p[1..]) + 2..])
    ensures Closed(p)
  {
  }

  lemma CloseBefore(p: seq<Char16>, q: seq<Char16>)
    requires CloseAt(p) < |p|
    ensures CloseAt(p + q) == CloseAt(p)
  {
    var k, all := CloseAt(p), p + q;
    assert all[k] == CLOSE && forall i | 0 <= i < k :: all[i] == p[i];
  }

  lemma {:induction false} LanguageInTurn(x: seq<Piece>, y: seq<Piece>, s: seq<Char16>)
    ensures InLanguage(x + y, s) <==> exists k :: 0 <= k <= |s| && InLanguage(x, s[..k]) && InLanguage(y, s[k..])
    decreases |x|
  {
    if InLanguage(x + y, s) {
      var k := SplitReading(x, y, s);
    }
    if k :| 0 <= k <= |s| && InLanguage(x, s[..k]) && InLanguage(y, s[k..]) {
      JoinReadings(x, y, s, k);
    }
  }

  lemma {:induction false} SplitReading(x: seq<Piece>, y: seq<Piece>, s: seq<Char16>) returns (k: nat)
    requires InLanguage(x + y, s)
    ensures k <= |s| && InLanguage(x, s[..k]) && InLanguage(y, s[k..])
    decreases |x|
  {
    hide Spells, InLanguage;
    if x == [] {
      assert x + y == y && s[0..] == s;
      EmptyPattern(s[..0]);
      k := 0;
    } else {
      var j := FirstWord(x + y, s);
      assert (x + y)[1..] == x[1..] + y;
      k := SplitReading(x[1..], y, s[j..]);
      assert s[j..][k..] == s[j + k..];
      assert s[..j + k][j..] == s[j..][..k] && s[..j + k][..j] == s[..j];
      ReadingCons(x[0], x[1..], s[..j + k], j);
      assert [x[0]] + x[1..] == x;
      k := j + k;
    }
  }

  lemma FirstWord(pieces: seq<Piece>, s: seq<Char16>) returns (j: nat)
    requires pieces != [] && InLanguage(pieces, s)
    ensures j <= |s| && Spells(pieces[0], s[..j]) && InLanguage(pieces[1..], s[j..])
  {
    var words :| Reading(pieces, s, words);
    ReadingTail(pieces, s, words);
    j := |words[0]|;
  }

  lemma {:induction false} JoinReadings(x: seq<Piece>, y: seq<Piece>, s: seq<Char16>, k: nat)
    requires k <= |s| && InLanguage(x, s[..k]) && InLanguage(y, s[k..])
    ensures InLanguage(x + y, s)
    decreases |x|
  {
    hide Spells, InLanguage;
    if x == [] {
      EmptyPattern(s[..k]);
      assert x + y == y && s[k..] == s;
    } else {
      var j := FirstWord(x, s[..k]);
      assert s[..k][j..] == s[j..][..k - j] && s[j..][k - j..] == s[k..] && s[..k][..j] == s[..j];
      JoinReadings(x[1..], y, s[j..], k - j);
      ReadingCons(x[0], x[1..] + y, s, j);
      assert [x[0]] + (x[1..] + y) == x + y;
    }
  }

  /** A pattern without special characters matches itself and nothing else. */
  lemma {:induction false} PlainMatches(p: seq<Char16>, s: seq<Char16>)
    requires forall i | 0 <= i < |p| :: p[i] != 0x2A && p[i] != 0x3F && p[i] != 0x5B
    ensures Closed(p) && (Matches(p, s) <==> s == p)
    decreases |p|
  {
    if p == [] {
      EmptyPattern(s);
    } else {
      PlainMatches(p[1..], if s == [] then [] else s[1..]);
      assert Parse(p) == [Literal(p[0])] + Parse(p[1..]);
      SinglePattern(Literal(p[0]), Parse(p[1..]), s);
      assert s != [] ==> s == [s[0]] + s[1..];
    }
  }

  // ---- Cursors into the two strings -----------------------------------------

  /** What MetaMatch(String + s, Pattern + q) is to decide. */
  ghost predicate Accepts(str: seq<Char16>, s: nat, pat: seq<Char16>, q: nat)
    requires Terminated(str) && s < |str| && Terminated(pat) && q < |pat|
    requires Closed(TextFrom(pat, q))
  {
    InLanguage(Parse(TextFrom(pat, q)), TextFrom(str, s))
  }

  lemma AcceptsSingle(str: seq<Char16>, s: nat, pat: seq<Char16>, q: nat, piece: Piece, next: nat)
    requires Terminated(str) && s < |str| && Terminated(pat) && q < next < |pat|
    requires Closed(TextFrom(pat, q)) && Closed(TextFrom(pat, next)) && !piece.AnyRun?
    requires Parse(TextFrom(pat, q)) == [piece] + Parse(TextFrom(pat, next))
    ensures Accepts(str, s, pat, q) <==> str[s] != 0 && Spells(piece, [str[s]]) && Accepts(str, s + 1, pat, next)
  {
    var text := TextFrom(str, s);
    SinglePattern(piece, Parse(TextFrom(pat, next)), text);
    if str[s] != 0 {
      assert text[1..] == TextFrom(str, s + 1);
    }
  }

  lemma ParsePlain(pat: seq<Char16>, q: nat)
    requires Terminated(pat) && q < |pat| && pat[q] != 0 && pat[q] != OPEN
    requires Closed(TextFrom(pat, q))
    ensures Closed(TextFrom(pat, q + 1))
    ensures Parse(TextFrom(pat, q)) ==
            [if pat[q] == STAR then AnyRun else if pat[q] == QUESTION then AnyOne else Literal(pat[q])] +
            Parse(TextFrom(pat, q + 1))
  {
    assert TextFrom(pat, q)[1..] == TextFrom(pat, q + 1);
  }

  lemma ParseSet(pat: seq<Char16>, q: nat) returns (body: seq<Char16>, next: nat)
    requires Terminated(pat) && q < |pat| && pat[q] == OPEN
    requires Closed(TextFrom(pat, q))
    ensures q + 1 < next < |pat| && body == pat[q + 1..next - 1] && pat[next - 1] == CLOSE && CLOSE !in body
    ensures Closed(TextFrom(pat, next))
    ensures Parse(TextFrom(pat, q)) == [CharSet(body)] + Parse(TextFrom(pat, next))
  {
    hide Parse, Closed, CloseAt;
    var text := TextFrom(pat, q);
    var k := CloseAt(text[1..]);
    body, next := text[1..][..k], q + k + 2;
    ParseOpen(text);
    SetInPattern(pat, q, k);
  }

  lemma ParseOpen(text: seq<Char16>)
    requires text != [] && text[0] == OPEN && Closed(text)
    ensures var k := CloseAt(text[1..]);
      k < |text| - 1 && Closed(text[k + 2..]) && Parse(text) == [CharSet(text[1..][..k])] + Parse(text[k + 2..])
  {
    assert text[1..][CloseAt(text[1..]) + 1..] == text[CloseAt(text[1..]) + 2..];
  }

  lemma SetInPattern(pat: seq<Char16>, q: nat, k: nat)
    requires Terminated(pat) && q < |pat| && k < |TextFrom(pat, q)| - 1
    ensures q + k + 2 < |pat| && TextFrom(pat, q)[1..][..k] == pat[q + 1..q + k + 1]
    ensures pat[q + k + 1] == TextFrom(pat, q)[1..][k]
    ensures TextFrom(pat, q)[k + 2..] == TextFrom(pat, q + k + 2)
  {}

  /** A star accepts from s on what the rest accepts from some later t on... */
  lemma RunAccepts(str: seq<Char16>, s: nat, pat: seq<Char16>, q: nat, t: nat)
    requires Terminated(str) && s <= t < |str| && Terminated(pat) && q < |pat| && pat[q] == STAR
    requires Closed(TextFrom(pat, q)) && Closed(TextFrom(pat, q + 1)) && Accepts(str, t, pat, q + 1)
    ensures Accepts(str, s, pat, q)
  {
    ParsePlain(pat, q);
    var text := TextFrom(str, s);
    assert text[t - s..] == TextFrom(str, t);
    ReadingCons(AnyRun, Parse(TextFrom(pat, q + 1)), text, t - s);
  }

  /** ... and nothing else. */
  lemma RunAcceptsOnly(str: seq<Char16>, s: nat, pat: seq<Char16>, q: nat) returns (t: nat)
    requires Terminated(str) && s < |str| && Terminated(pat) && q < |pat| && pat[q] == STAR
    requires Closed(TextFrom(pat, q)) && Closed(TextFrom(pat, q + 1)) && Accepts(str, s, pat, q)
    ensures s <= t < |str| && Accepts(str, t, pat, q + 1)
  {
    hide Parse, Closed, Reading, Spells;
    ParsePlain(pat, q);
    var pieces, text := Parse(TextFrom(pat, q)), TextFrom(str, s);
    assert pieces[1..] == Parse(TextFrom(pat, q + 1));
    var words :| Reading(pieces, text, words);
    ReadingTail(pieces, text, words);
    t := s + |words[0]|;
    assert text[t - s..] == TextFrom(str, t);
  }

  lemma AcceptsPlain(str: seq<Char16>, s: nat, pat: seq<Char16>, q: nat)
    requires Terminated(str) && s < |str| && Terminated(pat) && q < |pat|
    requires pat[q] != 0 && pat[q] != OPEN && pat[q] != STAR
    requires Closed(TextFrom(pat, q))
    ensures Closed(TextFrom(pat, q + 1))
    ensures Accepts(str, s, pat, q) <==>
            str[s] != 0 && (pat[q] == QUESTION || str[s] == pat[q]) && Accepts(str, s + 1, pat, q + 1)
  {
    ParsePlain(pat, q);
    AcceptsSingle(str, s, pat, q, if pat[q] == QUESTION then AnyOne else Literal(pat[q]), q + 1);
  }

  lemma AcceptsEnd(str: seq<Char16>, s: nat, pat: seq<Char16>, q: nat)
    requires Terminated(str) && s < |str| && Terminated(pat) && q < |pat| && pat[q] == 0
    ensures Closed(TextFrom(pat, q))
    ensures Accepts(str, s, pat, q) <==> str[s] == 0
  {
    EmptyPattern(TextFrom(str, s));
  }

  // ---- The matcher ----------------------------------------------------------

  /** The member loop: pattern cursor after '[', one character of the string.
      On a hit p is the pattern character the loop stopped at. */
  method FindMember(pat: seq<Char16>, start: nat, c: Char16, ghost body: seq<Char16>)
      returns (hit: bool, pattern: nat, p: Char16)
    requires Terminated(pat) && c != 0 && start + |body| + 1 < |pat|
    requires body == pat[start..start + |body|] && pat[start + |body|] == CLOSE && CLOSE !in body
    ensures hit <==> InSet(body, c)
    ensures hit ==> start < pattern <= start + |body| && p != 0 && p != CLOSE
  {
    ghost var i := 0;
    var l: Char16 := 0;
    pattern := start;
    while true
      invariant i <= |body| && pattern == start + i
      invariant i < |body| && body[i] == MINUS ==> l == if i == 0 then 0 else body[i - 1]
      invariant forall j | 0 <= j < i :: !Admits(body, j, c)
      decreases |body| - i
    {
      p := pat[pattern];
      assert i < |body| ==> p == body[i];
      pattern := pattern + 1;
      if p == CLOSE {
        return false, pattern, p;
      }
      if p == MINUS {
        p := pat[pattern];
        assert i + 1 < |body| ==> p == body[i + 1];
        if p == 0 || p == CLOSE {
          return false, pattern, p;
        }
        if c >= l && c <= p {
          assert Admits(body, i, c);
          return true, pattern, p;
        }
      }
      l := p;
      if c == p {
        assert Admits(body, i, c);
        return true, pattern, p;
      }
      i := i + 1;
    }
  }

  /** The skip loop: from inside a set to just after its ']'. */
  method SkipSet(pat: seq<Char16>, from: nat, p0: Char16, ghost close: nat) returns (pattern: nat)
    requires Terminated(pat) && from <= close < |pat| && pat[close] == CLOSE
    requires forall i | from <= i < close :: pat[i] != CLOSE
    requires p0 != 0 && p0 != CLOSE
    ensures pattern == close + 1
  {
    var p := p0;
    pattern := from;
    while p != 0 && p != CLOSE
      invariant from <= pattern <= close + 1
      invariant if pattern == close + 1 then p == CLOSE else p != 0 && p != CLOSE
      decreases close + 1 - pattern
    {
      p := pat[pattern];
      pattern := pattern + 1;
    }
  }

  lemma SpellsSet(body: seq<Char16>, c: Char16)
    ensures Spells(CharSet(body), [c]) <==> InSet(body, c)
  {}

  lemma InsideSet(pat: seq<Char16>, q: nat, body: seq<Char16>, after: nat)
    requires q + 1 < after <= |pat| && body == pat[q + 1..after - 1] && CLOSE !in body
    ensures forall i | q + 1 <= i < after - 1 :: pat[i] != CLOSE
    ensures body == pat[q + 1..q + 1 + |body|] && after == q + |body| + 2
  {
    assert forall i | q + 1 <= i < after - 1 :: pat[i] == body[i - q - 1];
  }

  /** The whole '[' case: does the set at q hold the character at s, and where
      does the pattern go on? */
  method MatchSet(str: seq<Char16>, s: nat, pat: seq<Char16>, q: nat) returns (hit: bool, next: nat)
    requires Terminated(str) && s < |str| && Terminated(pat) && q < |pat| && pat[q] == OPEN
    requires Closed(TextFrom(pat, q)) && str[s] != 0
    ensures hit ==> q < next < |pat| && Closed(TextFrom(pat, next))
    ensures Accepts(str, s, pat, q) <==> hit && Accepts(str, s + 1, pat, next)
  {
    hide Accepts, Closed, Parse, InSet, TextFrom, Spells, Terminated;
    ghost var body, after := ParseSet(pat, q);
    AcceptsSingle(str, s, pat, q, CharSet(body), after);
    SpellsSet(body, str[s]);
    InsideSet(pat, q, body, after);
    var pattern, last;
    hit, pattern, last := FindMember(pat, q + 1, str[s], body);
    next := pattern;
    if hit {
      next := SkipSet(pat, pattern, last, after - 1);
    }
  }

  method MetaMatch(str: seq<Char16>, si: nat, pat: seq<Char16>, pi: nat) returns (r: bool)
    requires Terminated(str) && si < |str| && Terminated(pat) && pi < |pat|
    requires Closed(TextFrom(pat, pi))
    ensures r <==> Accepts(str, si, pat, pi)
    ensures IsRange(pat, pi) ==>
      (r <==> |str| == si + 2 && (pat[pi + 1] <= str[si] <= pat[pi + 3] || str[si] in {pat[pi + 1], pat[pi + 3]}))
    decreases |pat| - pi, 0
  {
    RangeAccepts(str, si, pat, pi);
    hide Accepts, Closed, Parse, TextFrom, IsRange;
    ghost var goal := Accepts(str, si, pat, pi);
    var s, q := si, pi;
    while true
      invariant si <= s < |str| && pi <= q < |pat|
      invariant Closed(TextFrom(pat, q))
      invariant goal <==> Accepts(str, s, pat, q)
      decreases |pat| - q
    {
      var p := pat[q];
      if p == 0 {
        AcceptsEnd(str, s, pat, q);
        return str[s] == 0;
      } else if p == STAR {
        ParsePlain(pat, q);
        r := MatchRun(str, s, pat, q);
        return;
      } else if p == QUESTION {
        AcceptsPlain(str, s, pat, q);
        if str[s] == 0 {
          return false;
        }
        s, q := s + 1, q + 1;
      } else if p == OPEN {
        if str[s] == 0 {
          AcceptsNothing(str, s, pat, q);
          return false;
        }
        var hit, next := MatchSet(str, s, pat, q);
        if !hit {
          return false;
        }
        s, q := s + 1, next;
      } else {
        AcceptsPlain(str, s, pat, q);
        if str[s] != p {
          return false;
        }
        s, q := s + 1, q + 1;
      }
    }
  }

  /** The pattern from `pi` on is one set of one range: '[', the low end, '-', the high end and ']'. */
  predicate IsRange(pat: seq<Char16>, pi: nat) {
    && |pat| == pi + 6 && pat[pi] == 0x5B && pat[pi + 2] == 0x2D && pat[pi + 4] == 0x5D && pat[pi + 5] == 0
    && pat[pi + 1] != 0x2D && pat[pi + 1] != 0x5D && pat[pi + 3] != 0x2D && pat[pi + 3] != 0x5D
  }

  lemma RangeAccepts(str: seq<Char16>, si: nat, pat: seq<Char16>, pi: nat)
    requires Terminated(str) && si < |str| && Terminated(pat) && pi < |pat| && Closed(TextFrom(pat, pi))
    ensures IsRange(pat, pi) ==>
      (Accepts(str, si, pat, pi) <==>
       |str| == si + 2 && (pat[pi + 1] <= str[si] <= pat[pi + 3] || str[si] in {pat[pi + 1], pat[pi + 3]}))
  {
    if IsRange(pat, pi) {
      var body, text := [pat[pi + 1], 0x2D, pat[pi + 3]], TextFrom(str, si);
      assert TextFrom(pat, pi) == [0x5B] + body + [0x5D];
      hide Closed, Parse, InSet;
      SetMatches(body, text);
      if |text| == 1 {
        RangeSet(pat[pi + 1], pat[pi + 3], text[0]);
      }
    }
  }

  lemma AcceptsNothing(str: seq<Char16>, s: nat, pat: seq<Char16>, q: nat)
    requires Terminated(str) && s < |str| && Terminated(pat) && q < |pat| && pat[q] == OPEN
    requires Closed(TextFrom(pat, q)) && str[s] == 0
    ensures !Accepts(str, s, pat, q)
  {
    var body, after := ParseSet(pat, q);
    AcceptsSingle(str, s, pat, q, CharSet(body), after);
  }

  /** The star at pattern + q: try the rest of the pattern at every suffix of the
      string, the empty one last. */
  method MatchRun(str: seq<Char16>, si: nat, pat: seq<Char16>, q: nat) returns (r: bool)
    requires Terminated(str) && si < |str| && Terminated(pat) && q < |pat| && pat[q] == STAR
    requires Closed(TextFrom(pat, q)) && Closed(TextFrom(pat, q + 1))
    ensures r <==> Accepts(str, si, pat, q)
    decreases |pat| - q - 1, 1
  {
    var s := si;
    ghost var next := q + 1;
    while str[s] != 0
      invariant si <= s < |str|
      invariant forall t | si <= t < s :: !Accepts(str, t, pat, next)
      decreases |str| - s
    {
      var found := MetaMatch(str, s, pat, q + 1);
      if found {
        RunAccepts(str, si, pat, q, s);
        return true;
      }
      s := s + 1;
    }
    r := MetaMatch(str, s, pat, q + 1);
    if r {
      RunAccepts(str, si, pat, q, s);
    } else if Accepts(str, si, pat, q) {
      ghost var t := RunAcceptsOnly(str, si, pat, q);
    }
  }
}
