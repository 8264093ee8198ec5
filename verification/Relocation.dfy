// The self-relocator of an EFI image: the scan of the dynamic section and the relocation loop, on byte memory.

module Relocation {
  import opened Common

  const DT_NULL := 0
  const DT_RELA := 7
  const DT_RELASZ := 8
  const DT_RELAENT := 9

  const R_X86_64_RELATIVE := 8
  const R_AARCH64_RELATIVE := 1027

  type Word = x: int | 0 <= x < 0x1_0000_0000_0000_0000

  type Memory = nat -> Byte

  function Wrap(x: int): Word {
    x % QWORD
  }

  /** The value of a machine word read as a signed one. */
  function Signed(w: Word): int {
    if w < 0x8000_0000_0000_0000 then w else w - QWORD
  }

  // ---- Words of memory ----

  function FromBytes(s: seq<Byte>): nat {
    if s == [] then 0 else s[0] as nat + 256 * FromBytes(s[1..])
  }

  function ToBytes(v: nat, n: nat): (s: seq<Byte>)
    ensures |s| == n
    decreases n, v
  {
    if n == 0 then [] else [(v % 256) as Byte] + ToBytes(v / 256, n - 1)
  }

  lemma {:induction false} FromToBytes(s: seq<Byte>)
    ensures ToBytes(FromBytes(s), |s|) == s
  {
    if s != [] {
      FromToBytes(s[1..]);
      LowByte(s[0], FromBytes(s[1..]));
    }
  }

  lemma LowByte(b: Byte, r: nat)
    ensures (b as nat + 256 * r) % 256 == b as nat && (b as nat + 256 * r) / 256 == r
  {
  }

  /** The bound that `n` bytes put on a value. */
  function Bound(n: nat): nat
    decreases n, 0
  {
    if n == 0 then 1 else 256 * Bound(n - 1)
  }

  lemma {:induction false} ToFromBytes(v: nat, n: nat)
    requires v < Bound(n)
    ensures FromBytes(ToBytes(v, n)) == v
  {
    if n != 0 {
      ToFromBytes(v / 256, n - 1);
      assert ToBytes(v, n)[1..] == ToBytes(v / 256, n - 1);
    }
  }

  lemma {:induction false} FromBytesBound(s: seq<Byte>)
    ensures FromBytes(s) < Bound(|s|)
  {
    if s != [] {
      FromBytesBound(s[1..]);
    }
  }

  lemma BoundOfWord()
    ensures Bound(8) == QWORD
  {
    assert Bound(2) == 0x1_0000;
    assert Bound(4) == 0x1_0000_0000;
    assert Bound(6) == 0x1_0000_0000_0000;
  }

  function BytesFrom(mem: Memory, a: nat, n: nat): (s: seq<Byte>)
    ensures |s| == n
  {
    seq(n, i requires 0 <= i => mem(a + i))
  }

  function Load(mem: Memory, a: nat): (w: Word) {
    BoundOfWord();
    FromBytesBound(BytesFrom(mem, a, 8));
    FromBytes(BytesFrom(mem, a, 8))
  }

  function Store(mem: Memory, a: nat, w: Word): Memory {
    (x: nat) => if a <= x < a + 8 then ToBytes(w, 8)[x - a] else mem(x)
  }

  /** A word is its eight bytes, the least significant one first. */
  lemma LoadBytes(mem: Memory, a: nat)
    ensures Load(mem, a) ==
            mem(a) as nat + 0x100 * mem(a + 1) as nat + 0x1_0000 * mem(a + 2) as nat + 0x100_0000 * mem(a + 3) as nat +
            0x1_0000_0000 * (mem(a + 4) as nat + 0x100 * mem(a + 5) as nat + 0x1_0000 * mem(a + 6) as nat +
                             0x100_0000 * mem(a + 7) as nat)
  {
    var s := BytesFrom(mem, a, 8);
    assert s[..4] == BytesFrom(mem, a, 4) && s[4..] == BytesFrom(mem, a + 4, 4);
    FourBytes(s);
    FourBytes(s[4..]);
    assert s[4..][4..] == [];
  }

  lemma FourBytes(s: seq<Byte>)
    requires |s| >= 4
    ensures FromBytes(s) == s[0] as nat + 0x100 * s[1] as nat + 0x1_0000 * s[2] as nat + 0x100_0000 * s[3] as nat +
                            0x1_0000_0000 * FromBytes(s[4..])
  {
    assert s[1..][1..] == s[2..] && s[2..][1..] == s[3..] && s[3..][1..] == s[4..];
    assert FromBytes(s[3..]) == s[3] as nat + 0x100 * FromBytes(s[4..]);
    assert FromBytes(s[2..]) == s[2] as nat + 0x100 * FromBytes(s[3..]);
    assert FromBytes(s[1..]) == s[1] as nat + 0x100 * FromBytes(s[2..]);
  }

  /** Two words that share no byte. */
  predicate Apart(a: nat, b: nat) {
    a + 8 <= b || b + 8 <= a
  }

  lemma LoadStored(mem: Memory, a: nat, w: Word)
    ensures Load(Store(mem, a, w), a) == w
  {
    BoundOfWord();
    hide Bound;
    assert BytesFrom(Store(mem, a, w), a, 8) == ToBytes(w, 8) by {
      hide ToBytes;
    }
    ToFromBytes(w, 8);
  }

  lemma LoadUnchanged(mem: Memory, after: Memory, a: nat)
    requires forall x: nat :: a <= x < a + 8 ==> after(x) == mem(x)
    ensures Load(after, a) == Load(mem, a)
  {
    assert BytesFrom(after, a, 8) == BytesFrom(mem, a, 8) by {
      hide FromBytes;
    }
  }

  lemma LoadApart(mem: Memory, a: nat, w: Word, b: nat)
    requires Apart(a, b)
    ensures Load(Store(mem, a, w), b) == Load(mem, b)
  {
    hide ToBytes, Load;
    LoadUnchanged(mem, Store(mem, a, w), b);
  }

  /** Memories that agree on a word agree on each of its bytes. */
  lemma SameWordSameBytes(mem: Memory, other: Memory, a: nat, x: nat)
    requires Load(mem, a) == Load(other, a) && a <= x < a + 8
    ensures mem(x) == other(x)
  {
    hide FromBytes, ToBytes;
    FromToBytes(BytesFrom(mem, a, 8));
    FromToBytes(BytesFrom(other, a, 8));
    assert BytesFrom(mem, a, 8)[x - a] == mem(x);
    assert BytesFrom(other, a, 8)[x - a] == other(x);
  }

  // ---- The dynamic section ----

  datatype Dyn = Dyn(tag: int, value: Word)

  predicate Terminated(dyn: seq<Dyn>) {
    exists i :: 0 <= i < |dyn| && dyn[i].tag == DT_NULL
  }

  /** The entries in front of the first DT_NULL. */
  function Section(dyn: seq<Dyn>): seq<Dyn> {
    if dyn == [] || dyn[0].tag == DT_NULL then [] else [dyn[0]] + Section(dyn[1..])
  }

  /** The value of the last entry with a given tag. */
  function LastOf(section: seq<Dyn>, tag: int): Option<Word> {
    if section == [] then None
    else if section[|section| - 1].tag == tag then Some(section[|section| - 1].value)
    else LastOf(section[..|section| - 1], tag)
  }

  /** Where the relocation table lies, its size and the size of its entries; 0 where the section says nothing. */
  datatype Table = Table(rel: Word, size: int, entry: int)

  function TableOf(dyn: seq<Dyn>, base: Word): Table {
    var s := Section(dyn);
    Table(if LastOf(s, DT_RELA).Some? then Wrap(LastOf(s, DT_RELA).value + base) else 0,
          if LastOf(s, DT_RELASZ).Some? then Signed(LastOf(s, DT_RELASZ).value) else 0,
          if LastOf(s, DT_RELAENT).Some? then Signed(LastOf(s, DT_RELAENT).value) else 0)
  }

  lemma {:induction false} SectionUntil(dyn: seq<Dyn>, i: nat)
    requires i < |dyn| && dyn[i].tag == DT_NULL && forall j :: 0 <= j < i ==> dyn[j].tag != DT_NULL
    ensures Section(dyn) == dyn[..i]
  {
    if i > 0 {
      SectionUntil(dyn[1..], i - 1);
      assert dyn[..i] == [dyn[0]] + dyn[1..][..i - 1];
    }
  }

  /** The section ends at entry `end`: the first one with tag 0. */
  predicate EndsAt(dyn: seq<Dyn>, end: nat) {
    end < |dyn| && dyn[end].tag == 0 && forall j :: 0 <= j < end ==> dyn[j].tag != 0
  }

  /** Entry `i` is the last one with a tag in front of `end`. */
  predicate LastWith(dyn: seq<Dyn>, end: nat, tag: int, i: nat) {
    i < end <= |dyn| && dyn[i].tag == tag && forall j :: i < j < end ==> dyn[j].tag != tag
  }

  predicate NoneWith(dyn: seq<Dyn>, end: nat, tag: int) {
    end <= |dyn| && forall j :: 0 <= j < end ==> dyn[j].tag != tag
  }

  lemma {:induction false} LastOfLast(s: seq<Dyn>, tag: int, i: nat)
    requires LastWith(s, |s|, tag, i)
    ensures LastOf(s, tag) == Some(s[i].value)
  {
    if i < |s| - 1 {
      LastOfLast(s[..|s| - 1], tag, i);
    }
  }

  lemma {:induction false} LastOfNone(s: seq<Dyn>, tag: int)
    requires NoneWith(s, |s|, tag)
    ensures LastOf(s, tag) == None
  {
    if s != [] {
      LastOfNone(s[..|s| - 1], tag);
    }
  }

  /** What the section says of one tag, entry by entry. */
  lemma SectionSays(dyn: seq<Dyn>, end: nat, tag: int)
    requires EndsAt(dyn, end)
    ensures forall i: nat :: LastWith(dyn, end, tag, i) ==> LastOf(Section(dyn), tag) == Some(dyn[i].value)
    ensures NoneWith(dyn, end, tag) ==> LastOf(Section(dyn), tag) == None
  {
    hide LastOf, Section;
    SectionUntil(dyn, end);
    var s := dyn[..end];
    forall i: nat | LastWith(dyn, end, tag, i)
      ensures LastOf(s, tag) == Some(dyn[i].value)
    {
      assert LastWith(s, |s|, tag, i);
      LastOfLast(s, tag, i);
    }
    if NoneWith(dyn, end, tag) {
      LastOfNone(s, tag);
    }
  }

  /** The table of a section, entry by entry. */
  lemma TableSays(dyn: seq<Dyn>, base: Word, end: nat, rel: Word, relsz: int, relent: int)
    requires EndsAt(dyn, end) && Table(rel, relsz, relent) == TableOf(dyn, base)
    ensures forall i: nat :: LastWith(dyn, end, 7, i) ==> rel == (dyn[i].value + base) % 0x1_0000_0000_0000_0000
    ensures forall i: nat :: LastWith(dyn, end, 8, i) ==>
      relsz == if dyn[i].value < 0x8000_0000_0000_0000 then dyn[i].value else dyn[i].value - 0x1_0000_0000_0000_0000
    ensures forall i: nat :: LastWith(dyn, end, 9, i) ==>
      relent == if dyn[i].value < 0x8000_0000_0000_0000 then dyn[i].value else dyn[i].value - 0x1_0000_0000_0000_0000
    ensures NoneWith(dyn, end, 7) ==> rel == 0
    ensures NoneWith(dyn, end, 8) ==> relsz == 0
    ensures NoneWith(dyn, end, 9) ==> relent == 0
  {
    hide LastOf, Section, LastWith, NoneWith, EndsAt;
    SectionSays(dyn, end, 7);
    SectionSays(dyn, end, 8);
    SectionSays(dyn, end, 9);
  }

  /** The values of the last entries with tags 7, 8 and 9 in front of the first with tag 0; zero where there is none. */
  method Scan(dyn: seq<Dyn>, base: Word) returns (rel: Word, relsz: int, relent: int, ghost end: nat)
    requires Terminated(dyn)
    ensures EndsAt(dyn, end)
    ensures forall i: nat :: LastWith(dyn, end, 7, i) ==> rel == (dyn[i].value + base) % 0x1_0000_0000_0000_0000
    ensures forall i: nat :: LastWith(dyn, end, 8, i) ==>
      relsz == if dyn[i].value < 0x8000_0000_0000_0000 then dyn[i].value else dyn[i].value - 0x1_0000_0000_0000_0000
    ensures forall i: nat :: LastWith(dyn, end, 9, i) ==>
      relent == if dyn[i].value < 0x8000_0000_0000_0000 then dyn[i].value else dyn[i].value - 0x1_0000_0000_0000_0000
    ensures NoneWith(dyn, end, 7) ==> rel == 0
    ensures NoneWith(dyn, end, 8) ==> relsz == 0
    ensures NoneWith(dyn, end, 9) ==> relent == 0
    ensures Table(rel, relsz, relent) == TableOf(dyn, base)
  {
    hide LastWith, NoneWith, Wrap, Signed;
    relsz, relent, rel := 0, 0, 0;
    var i := 0;
    while dyn[i].tag != DT_NULL
      invariant 0 <= i < |dyn|
      invariant forall j :: 0 <= j < i ==> dyn[j].tag != DT_NULL
      invariant rel == if LastOf(dyn[..i], DT_RELA).Some? then Wrap(LastOf(dyn[..i], DT_RELA).value + base) else 0
      invariant relsz == if LastOf(dyn[..i], DT_RELASZ).Some? then Signed(LastOf(dyn[..i], DT_RELASZ).value) else 0
      invariant relent == if LastOf(dyn[..i], DT_RELAENT).Some? then Signed(LastOf(dyn[..i], DT_RELAENT).value) else 0
      decreases |dyn| - i
    {
      assert dyn[..i + 1][..i] == dyn[..i];
      if dyn[i].tag == DT_RELA {
        rel := Wrap(dyn[i].value + base);
      } else if dyn[i].tag == DT_RELASZ {
        relsz := Signed(dyn[i].value);
      } else if dyn[i].tag == DT_RELAENT {
        relent := Signed(dyn[i].value);
      }
      i := i + 1;
    }
    end := i;
    SectionUntil(dyn, i);
    assert EndsAt(dyn, end);
    TableSays(dyn, base, end, rel, relsz, relent);
  }

  // ---- The relocation loop ----

  /** The x86_64 form adds to the word in place; the aarch64 form stores base plus addend. */
  datatype Form = InPlace | Addend

  function RelativeType(form: Form): nat {
    if form.InPlace? then R_X86_64_RELATIVE else R_AARCH64_RELATIVE
  }

  /** A relative relocation: the word it patches and its addend, 0 for the in-place form, which reads none. */
  datatype Reloc = Reloc(target: Word, addend: Word)

  /** The relocation read from the table entry at `rel`, if it is a relative one. */
  function EntryAt(form: Form, mem: Memory, rel: nat, base: Word): seq<Reloc> {
    if Load(mem, rel + 8) % DWORD == RelativeType(form)
    then [Reloc(Wrap(base + Load(mem, rel)), AddendAt(form, mem, rel))] else []
  }

  function AddendAt(form: Form, mem: Memory, rel: nat): Word {
    if form.InPlace? then 0 else Load(mem, rel + 16)
  }

  /** How many bytes of an entry the loop reads: offset and info, and the addend in the addend form. */
  function EntryBytes(form: Form): nat {
    if form.InPlace? then 16 else 24
  }

  function Patched(form: Form, mem: Memory, r: Reloc, base: Word): Memory {
    Store(mem, r.target, if form.InPlace? then Wrap(Load(mem, r.target) + base) else Wrap(base + r.addend))
  }

  function Apply(form: Form, mem: Memory, relocs: seq<Reloc>, base: Word): Memory {
    if relocs == [] then mem else Apply(form, Patched(form, mem, relocs[0], base), relocs[1..], base)
  }

  /** Memory after the loop: each entry is read from the memory that the entries before it have left. */
  function Looped(form: Form, mem: Memory, t: Table, base: Word): Memory
    requires t.size > 0 ==> t.entry > 0
    decreases t.size
  {
    if t.size <= 0 then mem
    else Looped(form, Apply(form, mem, EntryAt(form, mem, t.rel, base), base), Next(t), base)
  }

  function Next(t: Table): Table {
    Table(Wrap(t.rel + t.entry), t.size - t.entry, t.entry)
  }

  datatype Status = Success | LoadError

  function Outcome(t: Table): Status {
    if (t.rel == 0) == (t.entry == 0) then Success else LoadError
  }

  lemma ApplyOne(form: Form, mem: Memory, r: Reloc, base: Word)
    ensures Apply(form, mem, [r], base) == Patched(form, mem, r, base)
  {
    hide Patched;
    assert Apply(form, Patched(form, mem, r, base), [r][1..], base) == Patched(form, mem, r, base);
  }

  /** One turn of the loop that meets no relative entry. */
  lemma SkipTurn(form: Form, mem: Memory, t: Table, base: Word)
    requires t.size > 0 && t.entry > 0
    requires Load(mem, t.rel + 8) % DWORD != RelativeType(form)
    ensures Looped(form, mem, t, base) == Looped(form, mem, Next(t), base)
  {
    hide Load, Store, Patched, Next;
    assert EntryAt(form, mem, t.rel, base) == [];
  }

  /** One turn of the loop that patches a word. */
  lemma PatchTurn(form: Form, mem: Memory, t: Table, base: Word, r: Reloc)
    requires t.size > 0 && t.entry > 0
    requires Load(mem, t.rel + 8) % DWORD == RelativeType(form)
    requires r == Reloc(Wrap(base + Load(mem, t.rel)), AddendAt(form, mem, t.rel))
    ensures Looped(form, mem, t, base) == Looped(form, Patched(form, mem, r, base), Next(t), base)
  {
    hide Load, Store, Patched, Next;
    assert EntryAt(form, mem, t.rel, base) == [r];
    ApplyOne(form, mem, r, base);
  }

  class Image {
    var bytes: Memory

    /** The in-place form. */
    method RelocateX86(base: Word, dyn: seq<Dyn>) returns (status: Status)
      requires Terminated(dyn)
      requires TableOf(dyn, base).size > 0 ==> TableOf(dyn, base).entry >= 0
      modifies this
      ensures var t := TableOf(dyn, base);
        status == Outcome(t) &&
        bytes == if t.rel == 0 || t.entry == 0 then old(bytes) else Looped(InPlace, old(bytes), t, base)
      ensures status == LoadError <==> GivesTable(dyn, base) != GivesEntrySize(dyn)
      ensures !GivesTable(dyn, base) || !GivesEntrySize(dyn) ==> bytes == old(bytes)
      ensures forall a: Word, n: nat, entry: Word :: Describes(dyn, old(bytes), base, a, n, entry, 8, 16) ==>
        status == Success && BaseAdded(old(bytes), bytes, base, a, n, entry)
    {
      hide TableOf, Load, Store, Looped, EndsAt, LastWith, NoneWith, Terminated, GivesTable, GivesEntrySize, Describes,
           BaseAdded, AddendsStored;
      TestsGiven(dyn, base);
      TablesInPlace(dyn, bytes, base);
      var rel: Word, relsz: int, relent: int, _ := Scan(dyn, base);
      if rel == 0 && relent == 0 {
        return Success;
      }
      if rel == 0 || relent == 0 {
        return LoadError;
      }
      ghost var final := Looped(InPlace, bytes, Table(rel, relsz, relent), base);
      while relsz > 0
        invariant relsz > 0 ==> relent > 0
        invariant Looped(InPlace, bytes, Table(rel, relsz, relent), base) == final
        decreases relsz
      {
        ghost var t := Table(rel, relsz, relent);
        if Load(bytes, rel + 8) % DWORD == R_X86_64_RELATIVE {
          var address: Word := Wrap(base + Load(bytes, rel));
          PatchTurn(InPlace, bytes, t, base, Reloc(address, 0));
          bytes := Store(bytes, address, Wrap(Load(bytes, address) + base));
        } else {
          SkipTurn(InPlace, bytes, t, base);
        }
        rel := Wrap(rel + relent);
        relsz := relsz - relent;
      }
      LoopEnds(InPlace, bytes, Table(rel, relsz, relent), base);
      return Success;
    }

    /** The addend form. */
    method RelocateAarch64(base: Word, dyn: seq<Dyn>) returns (status: Status)
      requires Terminated(dyn)
      requires TableOf(dyn, base).size > 0 ==> TableOf(dyn, base).entry >= 0
      modifies this
      ensures var t := TableOf(dyn, base);
        status == Outcome(t) &&
        bytes == if t.rel == 0 || t.entry == 0 then old(bytes) else Looped(Addend, old(bytes), t, base)
      ensures status == LoadError <==> GivesTable(dyn, base) != GivesEntrySize(dyn)
      ensures !GivesTable(dyn, base) || !GivesEntrySize(dyn) ==> bytes == old(bytes)
      ensures forall a: Word, n: nat, entry: Word :: Describes(dyn, old(bytes), base, a, n, entry, 1027, 24) ==>
        status == Success && AddendsStored(old(bytes), bytes, base, a, n, entry)
    {
      hide TableOf, Load, Store, Looped, EndsAt, LastWith, NoneWith, Terminated, GivesTable, GivesEntrySize, Describes,
           BaseAdded, AddendsStored;
      TestsGiven(dyn, base);
      TablesAddend(dyn, bytes, base);
      var rel: Word, relsz: int, relent: int, _ := Scan(dyn, base);
      if rel == 0 && relent == 0 {
        return Success;
      }
      if rel == 0 || relent == 0 {
        return LoadError;
      }
      ghost var final := Looped(Addend, bytes, Table(rel, relsz, relent), base);
      while relsz > 0
        invariant relsz > 0 ==> relent > 0
        invariant Looped(Addend, bytes, Table(rel, relsz, relent), base) == final
        decreases relsz
      {
        ghost var t := Table(rel, relsz, relent);
        if Load(bytes, rel + 8) % DWORD == R_AARCH64_RELATIVE {
          var address: Word := Wrap(base + Load(bytes, rel));
          PatchTurn(Addend, bytes, t, base, Reloc(address, Load(bytes, rel + 16)));
          bytes := Store(bytes, address, Wrap(base + Load(bytes, rel + 16)));
        } else {
          SkipTurn(Addend, bytes, t, base);
        }
        rel := Wrap(rel + relent);
        relsz := relsz - relent;
      }
      LoopEnds(Addend, bytes, Table(rel, relsz, relent), base);
      return Success;
    }
  }

  lemma LoopEnds(form: Form, mem: Memory, t: Table, base: Word)
    requires t.size <= 0
    ensures Looped(form, mem, t, base) == mem
  {
  }

  // ---- A table that no relocation touches ----

  /** The relative relocations of the table, all read from one memory. */
  function Relocs(form: Form, mem: Memory, t: Table, base: Word): seq<Reloc>
    requires t.size > 0 ==> t.entry > 0
    decreases t.size
  {
    if t.size <= 0 then [] else EntryAt(form, mem, t.rel, base) + Relocs(form, mem, Next(t), base)
  }

  /** Whether the word at `a` lies outside what the loop reads of every entry of the table. */
  predicate ClearOf(form: Form, t: Table, a: nat)
    requires t.size > 0 ==> t.entry > 0
    decreases t.size
  {
    t.size <= 0 || ((a + 8 <= t.rel || t.rel + EntryBytes(form) <= a) && ClearOf(form, Next(t), a))
  }

  predicate AllClear(form: Form, t: Table, relocs: seq<Reloc>)
    requires t.size > 0 ==> t.entry > 0
  {
    forall i :: 0 <= i < |relocs| ==> ClearOf(form, t, relocs[i].target)
  }

  lemma {:induction false} RelocsKept(form: Form, mem: Memory, t: Table, base: Word, a: nat, w: Word)
    requires t.size > 0 ==> t.entry > 0
    requires ClearOf(form, t, a)
    ensures Relocs(form, Store(mem, a, w), t, base) == Relocs(form, mem, t, base)
    decreases t.size
  {
    hide Load, Store, Wrap;
    if t.size > 0 {
      LoadApart(mem, a, w, t.rel);
      LoadApart(mem, a, w, t.rel + 8);
      if form.Addend? {
        LoadApart(mem, a, w, t.rel + 16);
      }
      RelocsKept(form, mem, Next(t), base, a, w);
    }
  }

  lemma {:induction false} ApplyAll(form: Form, mem: Memory, first: seq<Reloc>, rest: seq<Reloc>, base: Word)
    ensures Apply(form, mem, first + rest, base) == Apply(form, Apply(form, mem, first, base), rest, base)
    decreases |first|
  {
    hide Patched;
    if first == [] {
      assert first + rest == rest;
    } else {
      assert (first + rest)[1..] == first[1..] + rest;
      ApplyAll(form, Patched(form, mem, first[0], base), first[1..], rest, base);
    }
  }

  /** When no target lies in the table, the loop applies the relocations that the table held at the start. */
  lemma {:induction false} LoopAppliesTable(form: Form, mem: Memory, t: Table, base: Word)
    requires t.size > 0 ==> t.entry > 0
    requires AllClear(form, t, Relocs(form, mem, t, base))
    ensures Looped(form, mem, t, base) == Apply(form, mem, Relocs(form, mem, t, base), base)
    decreases t.size
  {
    hide Load, Store;
    if t.size > 0 {
      var entry, rest := EntryAt(form, mem, t.rel, base), Relocs(form, mem, Next(t), base);
      var after := Apply(form, mem, entry, base);
      RestClear(form, t, entry, rest);
      assert Relocs(form, after, Next(t), base) == rest by {
        if entry != [] {
          assert ClearOf(form, t, (entry + rest)[0].target);
          ApplyOne(form, mem, entry[0], base);
          var r := entry[0];
          RelocsKept(form, mem, Next(t), base, r.target,
                     if form.InPlace? then Wrap(Load(mem, r.target) + base) else Wrap(base + r.addend));
        }
      }
      LoopAppliesTable(form, after, Next(t), base);
      ApplyAll(form, mem, entry, rest, base);
    }
  }

  lemma RestClear(form: Form, t: Table, entry: seq<Reloc>, rest: seq<Reloc>)
    requires t.size > 0 && t.entry > 0
    requires AllClear(form, t, entry + rest)
    ensures AllClear(form, Next(t), rest)
  {
    forall i | 0 <= i < |rest|
      ensures ClearOf(form, Next(t), rest[i].target)
    {
      assert (entry + rest)[|entry| + i] == rest[i];
    }
  }

  // ---- What the relocations leave in memory ----

  function Count(relocs: seq<Reloc>, a: nat): nat {
    if relocs == [] then 0 else (if relocs[0].target == a then 1 else 0) + Count(relocs[1..], a)
  }

  function LastAddend(relocs: seq<Reloc>, a: nat): Word {
    if relocs == [] then 0
    else if relocs[0].target == a && Count(relocs[1..], a) == 0 then relocs[0].addend
    else LastAddend(relocs[1..], a)
  }

  /** The word at `a` is one of the targets or shares no byte with any of them. */
  predicate Separate(relocs: seq<Reloc>, a: nat) {
    forall i :: 0 <= i < |relocs| ==> relocs[i].target == a || Apart(relocs[i].target, a)
  }

  lemma WrapSum(x: int, y: int)
    ensures Wrap(Wrap(x) + y) == Wrap(x + y)
  {
    assert x == QWORD * (x / QWORD) + x % QWORD;
    ModShift(Wrap(x) + y, x / QWORD);
  }

  lemma ModShift(x: int, k: int)
    ensures (x + QWORD * k) % QWORD == x % QWORD
  {
  }

  lemma AddOnce(w: int, n: int, base: int)
    ensures Wrap(Wrap(w + base) + n * base) == Wrap(w + (1 + n) * base)
  {
    WrapSum(w + base, n * base);
    assert (1 + n) * base == base + n * base;
  }

  /** The in-place form adds the load base once for every relocation of the word. */
  lemma {:induction false} InPlaceWord(mem: Memory, relocs: seq<Reloc>, base: Word, a: nat)
    requires Separate(relocs, a)
    ensures Load(Apply(InPlace, mem, relocs, base), a) == Wrap(Load(mem, a) + Count(relocs, a) * base)
    decreases |relocs|
  {
    hide Load, Store, Wrap;
    if relocs == [] {
      SmallWrap(Load(mem, a));
    } else {
      var r, after := relocs[0], Patched(InPlace, mem, relocs[0], base);
      assert Separate(relocs[1..], a);
      InPlaceWord(after, relocs[1..], base, a);
      if r.target == a {
        LoadStored(mem, a, Wrap(Load(mem, a) + base));
        AddOnce(Load(mem, a), Count(relocs[1..], a), base);
      } else {
        LoadApart(mem, r.target, Wrap(Load(mem, r.target) + base), a);
      }
    }
  }

  lemma SmallWrap(w: Word)
    ensures Wrap(w) == w && Wrap(w + 0) == w
  {
  }

  /** The addend form leaves base plus the addend of the last relocation of the word. */
  lemma {:induction false} AddendWord(mem: Memory, relocs: seq<Reloc>, base: Word, a: nat)
    requires Separate(relocs, a)
    ensures Load(Apply(Addend, mem, relocs, base), a) ==
            if Count(relocs, a) == 0 then Load(mem, a) else Wrap(base + LastAddend(relocs, a))
    decreases |relocs|
  {
    hide Load, Store, Wrap;
    if relocs != [] {
      var r, after := relocs[0], Patched(Addend, mem, relocs[0], base);
      assert Separate(relocs[1..], a);
      AddendWord(after, relocs[1..], base, a);
      if r.target == a {
        LoadStored(mem, a, Wrap(base + r.addend));
      } else {
        LoadApart(mem, r.target, Wrap(base + r.addend), a);
      }
    }
  }

  /** Whether byte `x` belongs to a target. */
  predicate Touched(relocs: seq<Reloc>, x: nat) {
    exists i :: 0 <= i < |relocs| && relocs[i].target <= x < relocs[i].target + 8
  }

  /** Bytes outside every target keep their value. */
  lemma {:induction false} Untouched(form: Form, mem: Memory, relocs: seq<Reloc>, base: Word, x: nat)
    requires !Touched(relocs, x)
    ensures Apply(form, mem, relocs, base)(x) == mem(x)
    decreases |relocs|
  {
    hide Load, Wrap, ToBytes;
    if relocs != [] {
      assert !(relocs[0].target <= x < relocs[0].target + 8);
      assert !Touched(relocs[1..], x);
      Untouched(form, Patched(form, mem, relocs[0], base), relocs[1..], base, x);
    }
  }

  // ---- Whole tables ----

  /** Any two targets are the same word or share no byte. */
  predicate Aligned(relocs: seq<Reloc>) {
    forall i :: 0 <= i < |relocs| ==> Separate(relocs, relocs[i].target)
  }

  /** No two relocations patch the same word or overlap. */
  predicate DistinctTargets(relocs: seq<Reloc>) {
    forall i, j :: 0 <= i < j < |relocs| ==> Apart(relocs[i].target, relocs[j].target)
  }

  lemma {:induction false} CountZero(relocs: seq<Reloc>, a: nat)
    ensures Count(relocs, a) == 0 <==> forall i :: 0 <= i < |relocs| ==> relocs[i].target != a
  {
    if relocs != [] {
      CountZero(relocs[1..], a);
      assert forall i :: 0 < i < |relocs| ==> relocs[i] == relocs[1..][i - 1];
    }
  }

  lemma {:induction false} CountOnce(relocs: seq<Reloc>, i: nat)
    requires DistinctTargets(relocs) && i < |relocs|
    ensures Count(relocs, relocs[i].target) == 1 && LastAddend(relocs, relocs[i].target) == relocs[i].addend
  {
    var a := relocs[i].target;
    CountZero(relocs[1..], a);
    if i > 0 {
      CountOnce(relocs[1..], i - 1);
    }
  }

  lemma DistinctAligned(relocs: seq<Reloc>)
    requires DistinctTargets(relocs)
    ensures Aligned(relocs)
  {
  }

  /** DistinctTargets targets: the in-place form adds the load base to exactly those words. */
  lemma InPlaceExact(mem: Memory, relocs: seq<Reloc>, base: Word)
    requires DistinctTargets(relocs)
    ensures forall i :: 0 <= i < |relocs| ==>
      Load(Apply(InPlace, mem, relocs, base), relocs[i].target) == Wrap(Load(mem, relocs[i].target) + base)
    ensures forall x: nat :: !Touched(relocs, x) ==> Apply(InPlace, mem, relocs, base)(x) == mem(x)
  {
    hide Load, Wrap, Apply;
    DistinctAligned(relocs);
    forall i | 0 <= i < |relocs|
      ensures Load(Apply(InPlace, mem, relocs, base), relocs[i].target) == Wrap(Load(mem, relocs[i].target) + base)
    {
      InPlaceWord(mem, relocs, base, relocs[i].target);
      CountOnce(relocs, i);
    }
    forall x: nat | !Touched(relocs, x)
      ensures Apply(InPlace, mem, relocs, base)(x) == mem(x)
    {
      Untouched(InPlace, mem, relocs, base, x);
    }
  }

  /** A table of distinct words outside itself: the in-place loop adds the load base to exactly those words. */
  lemma LoopExact(mem: Memory, t: Table, base: Word)
    requires t.size > 0 ==> t.entry > 0
    requires AllClear(InPlace, t, Relocs(InPlace, mem, t, base)) && DistinctTargets(Relocs(InPlace, mem, t, base))
    ensures var relocs, after := Relocs(InPlace, mem, t, base), Looped(InPlace, mem, t, base);
      (forall i :: 0 <= i < |relocs| ==>
        Load(after, relocs[i].target) == Wrap(Load(mem, relocs[i].target) + base)) &&
      (forall x: nat :: !Touched(relocs, x) ==> after(x) == mem(x))
  {
    hide *;
    LoopAppliesTable(InPlace, mem, t, base);
    InPlaceExact(mem, Relocs(InPlace, mem, t, base), base);
  }

  /** Two memories that agree on every target. */
  ghost predicate SameTargets(mem: Memory, other: Memory, relocs: seq<Reloc>) {
    forall i :: 0 <= i < |relocs| ==> Load(mem, relocs[i].target) == Load(other, relocs[i].target)
  }

  /** Wherever the memories agreed before, they agree after. */
  ghost predicate AgreeAfter(mem: Memory, other: Memory, after: Memory, otherAfter: Memory) {
    forall x: nat :: mem(x) == other(x) ==> after(x) == otherAfter(x)
  }

  /** Images that agree on every target word after relocation agree wherever they agreed before. */
  lemma WordsDecide(f: Form, mem: Memory, relocs: seq<Reloc>, g: Form, other: Memory, others: seq<Reloc>, base: Word)
    requires forall x: nat :: Touched(relocs, x) <==> Touched(others, x)
    requires SameTargets(Apply(f, mem, relocs, base), Apply(g, other, others, base), relocs)
    ensures AgreeAfter(mem, other, Apply(f, mem, relocs, base), Apply(g, other, others, base))
  {
    hide Load, Apply;
    var after, otherAfter := Apply(f, mem, relocs, base), Apply(g, other, others, base);
    forall x: nat | mem(x) == other(x)
      ensures after(x) == otherAfter(x)
    {
      if Touched(relocs, x) {
        var i :| 0 <= i < |relocs| && relocs[i].target <= x < relocs[i].target + 8;
        SameWordSameBytes(after, otherAfter, relocs[i].target, x);
      } else {
        Untouched(f, mem, relocs, base, x);
        Untouched(g, other, others, base, x);
      }
    }
  }

  /**
   * The in-place and the addend form leave the same image exactly when, for every target, the word it held plus
   * one load base per relocation is the load base plus the last addend.
   */
  lemma FormsAgree(mem: Memory, other: Memory, relocs: seq<Reloc>, base: Word)
    requires Aligned(relocs) && SameTargets(mem, other, relocs)
    ensures AgreeAfter(mem, other, Apply(InPlace, mem, relocs, base), Apply(Addend, other, relocs, base)) <==>
            forall i :: 0 <= i < |relocs| ==>
              Wrap(Load(mem, relocs[i].target) + Count(relocs, relocs[i].target) * base) ==
              Wrap(base + LastAddend(relocs, relocs[i].target))
  {
    hide Load, Wrap, Apply, Count, LastAddend, AgreeAfter;
    var after, otherAfter := Apply(InPlace, mem, relocs, base), Apply(Addend, other, relocs, base);
    forall i | 0 <= i < |relocs|
      ensures Load(after, relocs[i].target) ==
              Wrap(Load(mem, relocs[i].target) + Count(relocs, relocs[i].target) * base)
      ensures Load(otherAfter, relocs[i].target) == Wrap(base + LastAddend(relocs, relocs[i].target))
    {
      InPlaceWord(mem, relocs, base, relocs[i].target);
      AddendWord(other, relocs, base, relocs[i].target);
      CountZero(relocs, relocs[i].target);
    }
    if AgreeAfter(mem, other, after, otherAfter) {
      forall i | 0 <= i < |relocs|
        ensures Load(after, relocs[i].target) == Load(otherAfter, relocs[i].target)
      {
        AgreedWord(mem, other, after, otherAfter, relocs[i].target);
      }
    }
    if SameTargets(after, otherAfter, relocs) {
      WordsDecide(InPlace, mem, relocs, Addend, other, relocs, base);
    }
  }

  lemma AgreedWord(mem: Memory, other: Memory, after: Memory, otherAfter: Memory, a: nat)
    requires AgreeAfter(mem, other, after, otherAfter) && Load(mem, a) == Load(other, a)
    ensures Load(after, a) == Load(otherAfter, a)
  {
    hide Load;
    forall x: nat | a <= x < a + 8
      ensures after(x) == otherAfter(x)
    {
      SameWordSameBytes(mem, other, a, x);
    }
    LoadUnchanged(otherAfter, after, a);
  }

  /** Every target holds its addend. */
  ghost predicate HoldAddends(mem: Memory, relocs: seq<Reloc>) {
    forall i :: 0 <= i < |relocs| ==> Load(mem, relocs[i].target) == relocs[i].addend
  }

  lemma SameApplied(mem: Memory, other: Memory, relocs: seq<Reloc>, base: Word)
    requires DistinctTargets(relocs) && HoldAddends(mem, relocs) && HoldAddends(other, relocs)
    ensures AgreeAfter(mem, other, Apply(InPlace, mem, relocs, base), Apply(Addend, other, relocs, base))
  {
    hide Load, Wrap, Apply, AgreeAfter, Count, LastAddend, Aligned;
    DistinctAligned(relocs);
    FormsAgree(mem, other, relocs, base);
    forall i | 0 <= i < |relocs|
      ensures Wrap(Load(mem, relocs[i].target) + Count(relocs, relocs[i].target) * base) ==
              Wrap(base + LastAddend(relocs, relocs[i].target))
    {
      CountOnce(relocs, i);
    }
  }

  /** The same words in the same order, whatever the addends. */
  predicate SameWords(r: seq<Reloc>, q: seq<Reloc>) {
    |r| == |q| && forall i :: 0 <= i < |r| ==> r[i].target == q[i].target
  }

  lemma {:induction false} InPlaceIgnoresAddends(mem: Memory, r: seq<Reloc>, q: seq<Reloc>, base: Word)
    requires SameWords(r, q)
    ensures Apply(InPlace, mem, r, base) == Apply(InPlace, mem, q, base)
    decreases |r|
  {
    hide Load, Store;
    if r != [] {
      InPlaceIgnoresAddends(Patched(InPlace, mem, r[0], base), r[1..], q[1..], base);
    }
  }

  /**
   * Tables of the two architectures that name the same distinct words, each holding its addend, give the same
   * image.
   */
  lemma SameImage(mem: Memory, t: Table, other: Memory, u: Table, base: Word)
    requires (t.size > 0 ==> t.entry > 0) && (u.size > 0 ==> u.entry > 0)
    requires SameWords(Relocs(InPlace, mem, t, base), Relocs(Addend, other, u, base))
    requires AllClear(InPlace, t, Relocs(InPlace, mem, t, base)) && AllClear(Addend, u, Relocs(Addend, other, u, base))
    requires DistinctTargets(Relocs(Addend, other, u, base))
    requires HoldAddends(mem, Relocs(Addend, other, u, base)) && HoldAddends(other, Relocs(Addend, other, u, base))
    ensures AgreeAfter(mem, other, Looped(InPlace, mem, t, base), Looped(Addend, other, u, base))
  {
    hide *;
    LoopAppliesTable(InPlace, mem, t, base);
    LoopAppliesTable(Addend, other, u, base);
    InPlaceIgnoresAddends(mem, Relocs(InPlace, mem, t, base), Relocs(Addend, other, u, base), base);
    SameApplied(mem, other, Relocs(Addend, other, u, base), base);
  }

  /** A word that is relocated twice by its own value: the in-place form adds the load base twice, the other once. */
  lemma TwiceRelocatedDiffers(mem: Memory)
    ensures var r := Reloc(0, Load(mem, 0));
      Aligned([r, r]) && !AgreeAfter(mem, mem, Apply(InPlace, mem, [r, r], 1), Apply(Addend, mem, [r, r], 1))
  {
    hide Load, Wrap, Apply, Count, LastAddend, AgreeAfter;
    var r := Reloc(0, Load(mem, 0));
    CountTwice(r);
    OneMore(Load(mem, 0));
    FormsAgree(mem, mem, [r, r], 1);
    assert [r, r][0] == r;
  }

  lemma CountTwice(r: Reloc)
    ensures Count([r, r], r.target) == 2 && LastAddend([r, r], r.target) == r.addend
  {
    assert [r, r][1..] == [r] && [r][1..] == [];
    assert Count([], r.target) == 0;
    assert Count([r], r.target) == 1 && LastAddend([r], r.target) == r.addend;
  }

  lemma OneMore(w: int)
    ensures Wrap(w + 2 * 1) != Wrap(1 + w)
  {
  }

  // ---- The order of the table ----

  lemma {:induction false} CountSum(s: seq<Reloc>, t: seq<Reloc>, a: nat)
    ensures Count(s + t, a) == Count(s, a) + Count(t, a)
  {
    if s == [] {
      assert s + t == t;
    } else {
      assert (s + t)[1..] == s[1..] + t;
      CountSum(s[1..], t, a);
    }
  }

  function Without(t: seq<Reloc>, j: nat): seq<Reloc>
    requires j < |t|
  {
    t[..j] + t[j + 1..]
  }

  lemma CountWithout(t: seq<Reloc>, j: nat, a: nat)
    requires j < |t|
    ensures Count(t, a) == Count(Without(t, j), a) + (if t[j].target == a then 1 else 0)
  {
    hide Count;
    assert t == t[..j] + t[j..];
    CountSum(t[..j], t[j..], a);
    CountSum(t[..j], t[j + 1..], a);
    CountHead(t[j..], a);
    assert t[j..][1..] == t[j + 1..];
  }

  lemma CountHead(s: seq<Reloc>, a: nat)
    requires s != []
    ensures Count(s, a) == (if s[0].target == a then 1 else 0) + Count(s[1..], a)
  {
  }

  lemma MultisetWithout(t: seq<Reloc>, j: nat)
    requires j < |t|
    ensures multiset(t) == multiset(Without(t, j)) + multiset{t[j]}
  {
    assert t == t[..j] + [t[j]] + t[j + 1..];
  }

  lemma CancelOne(m: multiset<Reloc>, n: multiset<Reloc>, r: Reloc)
    requires m + multiset{r} == n + multiset{r}
    ensures m == n
  {
    assert m == m + multiset{r} - multiset{r};
    assert n == n + multiset{r} - multiset{r};
  }

  lemma {:induction false} CountPermuted(s: seq<Reloc>, t: seq<Reloc>, a: nat)
    requires multiset(s) == multiset(t)
    ensures Count(s, a) == Count(t, a)
    decreases |s|
  {
    if s != [] {
      hide Count;
      var j := PermutedIndex(s, t, 0);
      MultisetWithout(s, 0);
      MultisetWithout(t, j);
      CancelOne(multiset(Without(s, 0)), multiset(Without(t, j)), s[0]);
      CountPermuted(Without(s, 0), Without(t, j), a);
      CountWithout(s, 0, a);
      CountWithout(t, j, a);
    }
  }

  lemma PermutedIndex(s: seq<Reloc>, t: seq<Reloc>, i: nat) returns (j: nat)
    requires multiset(s) == multiset(t) && i < |s|
    ensures j < |t| && t[j] == s[i]
  {
    assert s[i] in multiset(t);
    j :| 0 <= j < |t| && t[j] == s[i];
  }

  lemma TouchedPermuted(s: seq<Reloc>, t: seq<Reloc>, x: nat)
    requires multiset(s) == multiset(t) && Touched(s, x)
    ensures Touched(t, x)
  {
    var i :| 0 <= i < |s| && s[i].target <= x < s[i].target + 8;
    var j := PermutedIndex(s, t, i);
  }

  lemma SeparatePermuted(s: seq<Reloc>, t: seq<Reloc>, a: nat)
    requires multiset(s) == multiset(t) && Separate(s, a)
    ensures Separate(t, a)
  {
    forall j | 0 <= j < |t|
      ensures t[j].target == a || Apart(t[j].target, a)
    {
      var i := PermutedIndex(t, s, j);
    }
  }

  lemma OrderApplied(mem: Memory, r: seq<Reloc>, other: Memory, q: seq<Reloc>, base: Word)
    requires multiset(r) == multiset(q) && Aligned(r) && SameTargets(mem, other, r)
    ensures AgreeAfter(mem, other, Apply(InPlace, mem, r, base), Apply(InPlace, other, q, base))
  {
    hide Load, Wrap, Apply, AgreeAfter, Count, Touched, Separate;
    forall i | 0 <= i < |r|
      ensures Load(Apply(InPlace, mem, r, base), r[i].target) == Load(Apply(InPlace, other, q, base), r[i].target)
    {
      SeparatePermuted(r, q, r[i].target);
      InPlaceWord(mem, r, base, r[i].target);
      InPlaceWord(other, q, base, r[i].target);
      CountPermuted(r, q, r[i].target);
    }
    forall x: nat
      ensures Touched(r, x) <==> Touched(q, x)
    {
      if Touched(r, x) {
        TouchedPermuted(r, q, x);
      }
      if Touched(q, x) {
        TouchedPermuted(q, r, x);
      }
    }
    WordsDecide(InPlace, mem, r, InPlace, other, q, base);
  }

  /** Memories that agree on the targets, with tables that differ only in order, end as the same image. */
  lemma OrderIrrelevant(mem: Memory, t: Table, other: Memory, u: Table, base: Word)
    requires (t.size > 0 ==> t.entry > 0) && (u.size > 0 ==> u.entry > 0)
    requires multiset(Relocs(InPlace, mem, t, base)) == multiset(Relocs(InPlace, other, u, base))
    requires AllClear(InPlace, t, Relocs(InPlace, mem, t, base))
    requires AllClear(InPlace, u, Relocs(InPlace, other, u, base))
    requires Aligned(Relocs(InPlace, mem, t, base)) && SameTargets(mem, other, Relocs(InPlace, mem, t, base))
    ensures AgreeAfter(mem, other, Looped(InPlace, mem, t, base), Looped(InPlace, other, u, base))
  {
    hide *;
    LoopAppliesTable(InPlace, mem, t, base);
    LoopAppliesTable(InPlace, other, u, base);
    OrderApplied(mem, Relocs(InPlace, mem, t, base), other, Relocs(InPlace, other, u, base), base);
  }

  // ---- Whole images ----

  /** The section gives a tag this value: its last entry with the tag in front of the first with tag 0. */
  ghost predicate Gives(dyn: seq<Dyn>, tag: int, value: Word) {
    exists end: nat, i: nat :: EndsAt(dyn, end) && LastWith(dyn, end, tag, i) && dyn[i].value == value
  }

  /** A tag that only one entry of the section has is given that entry's value, wherever the entry stands. */
  lemma OnlyEntryGives(dyn: seq<Dyn>, end: nat, i: nat)
    requires EndsAt(dyn, end) && i < end && forall j :: 0 <= j < end && j != i ==> dyn[j].tag != dyn[i].tag
    ensures forall v: Word :: Gives(dyn, dyn[i].tag, v) <==> v == dyn[i].value
  {
    assert LastWith(dyn, end, dyn[i].tag, i);
    OneValue(dyn, end, dyn[i].tag);
  }

  /** The section gives the address of a table, and one that is not zero once loaded. */
  ghost predicate GivesTable(dyn: seq<Dyn>, base: Word) {
    exists v: Word :: Gives(dyn, 7, v) && (v + base) % 0x1_0000_0000_0000_0000 != 0
  }

  ghost predicate GivesEntrySize(dyn: seq<Dyn>) {
    exists v: Word :: Gives(dyn, 9, v) && v != 0
  }

  lemma {:induction false} SomeLast(dyn: seq<Dyn>, end: nat, tag: int) returns (i: nat)
    requires end <= |dyn|
    ensures LastWith(dyn, end, tag, i) || NoneWith(dyn, end, tag)
    decreases end
  {
    i := 0;
    if end > 0 {
      if dyn[end - 1].tag == tag {
        i := end - 1;
      } else {
        i := SomeLast(dyn, end - 1, tag);
      }
    }
  }

  lemma TerminatedAt(dyn: seq<Dyn>) returns (end: nat)
    requires Terminated(dyn)
    ensures EndsAt(dyn, end)
  {
    end := 0;
    while dyn[end].tag != 0
      invariant end < |dyn| && forall j :: 0 <= j < end ==> dyn[j].tag != 0
      decreases |dyn| - end
    {
      end := end + 1;
    }
  }

  lemma OneValue(dyn: seq<Dyn>, end: nat, tag: int)
    requires EndsAt(dyn, end)
    ensures forall i: nat, v: Word :: LastWith(dyn, end, tag, i) ==> (Gives(dyn, tag, v) <==> v == dyn[i].value)
    ensures forall v: Word :: NoneWith(dyn, end, tag) ==> !Gives(dyn, tag, v)
  {
  }

  /** What the two tests before the loop ask, entry by entry. */
  lemma TestsGiven(dyn: seq<Dyn>, base: Word)
    requires Terminated(dyn)
    ensures TableOf(dyn, base).rel != 0 <==> GivesTable(dyn, base)
    ensures TableOf(dyn, base).entry != 0 <==> GivesEntrySize(dyn)
  {
    hide TableOf, Terminated, EndsAt, LastWith, NoneWith, Gives;
    var end := TerminatedAt(dyn);
    var t := TableOf(dyn, base);
    TableSays(dyn, base, end, t.rel, t.size, t.entry);
    OneValue(dyn, end, 7);
    OneValue(dyn, end, 9);
    InSection(dyn, end);
    var i := SomeLast(dyn, end, 7);
    var k := SomeLast(dyn, end, 9);
    if LastWith(dyn, end, 7, i) {
      assert Gives(dyn, 7, dyn[i].value);
    }
    if LastWith(dyn, end, 9, k) {
      assert Gives(dyn, 9, dyn[k].value);
    }
  }

  lemma InSection(dyn: seq<Dyn>, end: nat)
    requires EndsAt(dyn, end)
    ensures end <= |dyn| && forall tag: int, i: nat :: LastWith(dyn, end, tag, i) ==> i < |dyn|
  {
  }

  /** Where entry `k` of a table at `p` lies. */
  function Slot(p: Word, entry: int, k: nat): Word {
    (p + k * entry) % 0x1_0000_0000_0000_0000
  }

  /** The type of the table entry at `slot`: the low half of its second word. */
  function TypeAt(mem: Memory, slot: nat): nat {
    Load(mem, slot + 8) % 0x1_0000_0000
  }

  /** The word that the table entry at `slot` names. */
  function TargetAt(mem: Memory, slot: nat, base: Word): Word {
    (base + Load(mem, slot)) % 0x1_0000_0000_0000_0000
  }

  /** The words named by entries of a type share no byte with each other. */
  ghost predicate TargetsApart(mem: Memory, p: Word, n: nat, entry: int, base: Word, kind: nat) {
    forall k, j | 0 <= k < j < n && TypeAt(mem, Slot(p, entry, k)) == TypeAt(mem, Slot(p, entry, j)) == kind ::
      Apart(TargetAt(mem, Slot(p, entry, k), base), TargetAt(mem, Slot(p, entry, j), base))
  }

  /** The word at `a` shares no byte with the first `width` bytes of any entry. */
  ghost predicate OffTable(p: Word, n: nat, entry: int, width: nat, a: nat) {
    forall j :: 0 <= j < n ==> a + 8 <= Slot(p, entry, j) || Slot(p, entry, j) + width <= a
  }

  ghost predicate TargetsOffTable(mem: Memory, p: Word, n: nat, entry: int, base: Word, kind: nat, width: nat) {
    forall k :: 0 <= k < n && TypeAt(mem, Slot(p, entry, k)) == kind ==>
      OffTable(p, n, entry, width, TargetAt(mem, Slot(p, entry, k), base))
  }

  /** The section gives `n` entries at `a`, and the relative ones name distinct words outside the table. */
  ghost predicate Describes(dyn: seq<Dyn>, mem: Memory, base: Word, a: Word, n: nat, entry: Word, kind: nat,
                            width: nat) {
    && 0 < entry < 0x8000_0000_0000_0000 && n * entry < 0x8000_0000_0000_0000
    && (a + base) % 0x1_0000_0000_0000_0000 != 0
    && Gives(dyn, 7, a) && Gives(dyn, 8, n * entry) && Gives(dyn, 9, entry)
    && TargetsApart(mem, (a + base) % 0x1_0000_0000_0000_0000, n, entry, base, kind)
    && TargetsOffTable(mem, (a + base) % 0x1_0000_0000_0000_0000, n, entry, base, kind, width)
  }

  /** Bytes outside every word that an entry of the type names are as before. */
  ghost predicate OthersKept(mem: Memory, after: Memory, p: Word, n: nat, entry: int, base: Word, kind: nat) {
    forall x: nat :: after(x) == mem(x) ||
      exists k :: 0 <= k < n && TypeAt(mem, Slot(p, entry, k)) == kind &&
                  TargetAt(mem, Slot(p, entry, k), base) <= x < TargetAt(mem, Slot(p, entry, k), base) + 8
  }

  lemma SlotFirst(p: Word, entry: int)
    ensures Slot(p, entry, 0) == p
  {
  }

  lemma SlotNext(p: Word, entry: int, k: nat)
    ensures Slot(Wrap(p + entry), entry, k) == Slot(p, entry, k + 1)
  {
    WrapSum(p + entry, k * entry);
    assert (k + 1) * entry == entry + k * entry;
  }

  /** What the loop reads of the entry at a slot. */
  lemma EntryIs(form: Form, mem: Memory, slot: nat, base: Word)
    ensures EntryAt(form, mem, slot, base) ==
            if TypeAt(mem, slot) == RelativeType(form)
            then [Reloc(TargetAt(mem, slot, base), AddendAt(form, mem, slot))] else []
  {
    hide Load;
  }

  /** The relocations of a table of n + 1 entries: that of the first entry, and those of the other n. */
  lemma RelocsStep(form: Form, mem: Memory, p: Word, n: nat, entry: int, base: Word)
    requires entry > 0 && n > 0
    ensures n * entry > 0 && (n - 1) * entry == n * entry - entry && 0 <= (n - 1) * entry
    ensures Relocs(form, mem, Table(p, n * entry, entry), base) ==
            EntryAt(form, mem, p, base) + Relocs(form, mem, Table(Wrap(p + entry), (n - 1) * entry, entry), base)
  {
    hide EntryAt, Wrap;
    MultipleStep(n, entry);
  }

  lemma MultipleStep(n: nat, entry: int)
    requires entry > 0 && n > 0
    ensures n * entry > 0 && (n - 1) * entry == n * entry - entry && 0 <= (n - 1) * entry
  {
  }

  lemma NoRelocs(form: Form, mem: Memory, p: Word, entry: int, base: Word)
    ensures 0 * entry == 0 && Relocs(form, mem, Table(p, 0 * entry, entry), base) == []
  {
  }

  /** Every relative entry gives a relocation, ... */
  lemma {:induction false} RelocOfEntry(form: Form, mem: Memory, p: Word, n: nat, entry: int, base: Word, k: nat)
      returns (i: nat)
    requires entry > 0 && k < n && TypeAt(mem, Slot(p, entry, k)) == RelativeType(form)
    ensures n * entry >= 0
    ensures var relocs := Relocs(form, mem, Table(p, n * entry, entry), base);
      i < |relocs| && relocs[i] == Reloc(TargetAt(mem, Slot(p, entry, k), base), AddendAt(form, mem, Slot(p, entry, k)))
    decreases n
  {
    hide Relocs, EntryAt, TypeAt, TargetAt, AddendAt, Slot, RelativeType;
    RelocsStep(form, mem, p, n, entry, base);
    SlotFirst(p, entry);
    EntryIs(form, mem, p, base);
    if k == 0 {
      i := 0;
    } else {
      SlotNext(p, entry, k - 1);
      i := RelocOfEntry(form, mem, Wrap(p + entry), n - 1, entry, base, k - 1);
      i := i + |EntryAt(form, mem, p, base)|;
    }
  }

  /** ... and every relocation comes from one. */
  lemma {:induction false} EntryOfReloc(form: Form, mem: Memory, p: Word, n: nat, entry: int, base: Word, i: nat)
      returns (k: nat)
    requires entry > 0 && n * entry >= 0 && i < |Relocs(form, mem, Table(p, n * entry, entry), base)|
    ensures k < n && TypeAt(mem, Slot(p, entry, k)) == RelativeType(form)
    ensures Relocs(form, mem, Table(p, n * entry, entry), base)[i] ==
            Reloc(TargetAt(mem, Slot(p, entry, k), base), AddendAt(form, mem, Slot(p, entry, k)))
    decreases n
  {
    hide Relocs, EntryAt, TypeAt, TargetAt, AddendAt, Slot, RelativeType;
    NoRelocs(form, mem, p, entry, base);
    assert n > 0;
    RelocsStep(form, mem, p, n, entry, base);
    SlotFirst(p, entry);
    EntryIs(form, mem, p, base);
    var first := |EntryAt(form, mem, p, base)|;
    if i < first {
      k := 0;
    } else {
      k := EntryOfReloc(form, mem, Wrap(p + entry), n - 1, entry, base, i - first);
      SlotNext(p, entry, k);
      k := k + 1;
    }
  }

  lemma {:induction false} ClearOfTable(form: Form, p: Word, n: nat, entry: int, a: nat)
    requires entry > 0 && OffTable(p, n, entry, EntryBytes(form), a)
    ensures n * entry >= 0 && ClearOf(form, Table(p, n * entry, entry), a)
    decreases n
  {
    hide Slot, Wrap;
    if n > 0 {
      MultipleStep(n, entry);
      SlotFirst(p, entry);
        var next := Wrap(p + entry);
      forall j | 0 <= j < n - 1
        ensures a + 8 <= Slot(next, entry, j) || Slot(next, entry, j) + EntryBytes(form) <= a
      {
        SlotNext(p, entry, j);
      }
      ClearOfTable(form, next, n - 1, entry, a);
    }
  }

  lemma {:induction false} RelocsApart(form: Form, mem: Memory, p: Word, n: nat, entry: int, base: Word)
    requires entry > 0 && TargetsApart(mem, p, n, entry, base, RelativeType(form))
    ensures n * entry >= 0 && DistinctTargets(Relocs(form, mem, Table(p, n * entry, entry), base))
    decreases n
  {
    hide Relocs, EntryAt, TypeAt, TargetAt, AddendAt, Slot, RelativeType, Apart;
    if n == 0 {
      NoRelocs(form, mem, p, entry, base);
    } else {
      RelocsStep(form, mem, p, n, entry, base);
      SlotFirst(p, entry);
        EntryIs(form, mem, p, base);
      var next := Wrap(p + entry);
      var rest := Relocs(form, mem, Table(next, (n - 1) * entry, entry), base);
      RestApart(mem, p, n, entry, base, RelativeType(form));
      RelocsApart(form, mem, next, n - 1, entry, base);
      if TypeAt(mem, p) == RelativeType(form) {
        forall i | 0 <= i < |rest|
          ensures Apart(TargetAt(mem, p, base), rest[i].target)
        {
          var k := EntryOfReloc(form, mem, next, n - 1, entry, base, i);
          SlotNext(p, entry, k);
        }
      }
    }
  }

  lemma RestApart(mem: Memory, p: Word, n: nat, entry: int, base: Word, kind: nat)
    requires n > 0 && TargetsApart(mem, p, n, entry, base, kind)
    ensures TargetsApart(mem, Wrap(p + entry), n - 1, entry, base, kind)
  {
    hide TypeAt, TargetAt, Slot, Apart;
    var next := Wrap(p + entry);
    forall k, j | 0 <= k < j < n - 1 && TypeAt(mem, Slot(next, entry, k)) == kind &&
                  TypeAt(mem, Slot(next, entry, j)) == kind
      ensures Apart(TargetAt(mem, Slot(next, entry, k), base), TargetAt(mem, Slot(next, entry, j), base))
    {
      SlotNext(p, entry, k);
      SlotNext(p, entry, j);
    }
  }

  lemma RelocsClear(form: Form, mem: Memory, p: Word, n: nat, entry: int, base: Word)
    requires entry > 0 && TargetsOffTable(mem, p, n, entry, base, RelativeType(form), EntryBytes(form))
    ensures n * entry >= 0
    ensures AllClear(form, Table(p, n * entry, entry), Relocs(form, mem, Table(p, n * entry, entry), base))
  {
    hide Relocs, EntryAt, TypeAt, TargetAt, AddendAt, Slot, RelativeType, ClearOf, OffTable, EntryBytes;
    ProductSign(n, entry);
    var relocs := Relocs(form, mem, Table(p, n * entry, entry), base);
    forall i | 0 <= i < |relocs|
      ensures ClearOf(form, Table(p, n * entry, entry), relocs[i].target)
    {
      var k := EntryOfReloc(form, mem, p, n, entry, base, i);
      ClearOfTable(form, p, n, entry, relocs[i].target);
    }
  }

  lemma ProductSign(n: nat, entry: int)
    requires entry > 0
    ensures n * entry >= 0
  {
  }

  lemma GivenAt(dyn: seq<Dyn>, tag: int, value: Word) returns (end: nat, i: nat)
    requires Gives(dyn, tag, value)
    ensures EndsAt(dyn, end) && LastWith(dyn, end, tag, i) && i < |dyn| && dyn[i].value == value
  {
    end, i :| EndsAt(dyn, end) && LastWith(dyn, end, tag, i) && dyn[i].value == value;
  }

  lemma SameEnd(dyn: seq<Dyn>, end: nat, other: nat)
    requires EndsAt(dyn, end) && EndsAt(dyn, other)
    ensures end == other
  {
  }

  /** The table that the section gives. */
  lemma TableGiven(dyn: seq<Dyn>, base: Word, a: Word, size: Word, entry: Word)
    requires Gives(dyn, 7, a) && Gives(dyn, 8, size) && Gives(dyn, 9, entry)
    requires size < 0x8000_0000_0000_0000 && entry < 0x8000_0000_0000_0000
    ensures TableOf(dyn, base) == Table((a + base) % 0x1_0000_0000_0000_0000, size, entry)
  {
    hide TableOf, EndsAt, LastWith, NoneWith, Gives;
    var end, i := GivenAt(dyn, 7, a);
    var end8, j := GivenAt(dyn, 8, size);
    var end9, k := GivenAt(dyn, 9, entry);
    SameEnd(dyn, end, end8);
    SameEnd(dyn, end, end9);
    var t := TableOf(dyn, base);
    TableSays(dyn, base, end, t.rel, t.size, t.entry);
  }

  /** Distinct targets in the addend form: each ends as the load base plus its addend. */
  lemma AddendExact(mem: Memory, relocs: seq<Reloc>, base: Word)
    requires DistinctTargets(relocs)
    ensures forall i :: 0 <= i < |relocs| ==>
      Load(Apply(Addend, mem, relocs, base), relocs[i].target) == Wrap(base + relocs[i].addend)
    ensures forall x: nat :: !Touched(relocs, x) ==> Apply(Addend, mem, relocs, base)(x) == mem(x)
  {
    hide Load, Wrap, Apply;
    DistinctAligned(relocs);
    forall i | 0 <= i < |relocs|
      ensures Load(Apply(Addend, mem, relocs, base), relocs[i].target) == Wrap(base + relocs[i].addend)
    {
      AddendWord(mem, relocs, base, relocs[i].target);
      CountOnce(relocs, i);
    }
    forall x: nat | !Touched(relocs, x)
      ensures Apply(Addend, mem, relocs, base)(x) == mem(x)
    {
      Untouched(Addend, mem, relocs, base, x);
    }
  }

  /** The loop over a described table is the application of its relocations, which name distinct words. */
  lemma DescribedLoop(form: Form, dyn: seq<Dyn>, mem: Memory, base: Word, a: Word, n: nat, entry: Word)
      returns (p: Word, relocs: seq<Reloc>)
    requires Describes(dyn, mem, base, a, n, entry, RelativeType(form), EntryBytes(form))
    ensures p == (a + base) % 0x1_0000_0000_0000_0000 != 0 && n * entry >= 0 && entry > 0
    ensures TableOf(dyn, base) == Table(p, n * entry, entry)
    ensures relocs == Relocs(form, mem, Table(p, n * entry, entry), base) && DistinctTargets(relocs)
    ensures Looped(form, mem, Table(p, n * entry, entry), base) == Apply(form, mem, relocs, base)
  {
    hide TableOf, Gives, TargetsApart, TargetsOffTable, Relocs, DistinctTargets, AllClear, Looped, Apply;
    p := (a + base) % 0x1_0000_0000_0000_0000;
    ProductSign(n, entry);
    relocs := Relocs(form, mem, Table(p, n * entry, entry), base);
    TableGiven(dyn, base, a, n * entry, entry);
    RelocsApart(form, mem, p, n, entry, base);
    RelocsClear(form, mem, p, n, entry, base);
    LoopAppliesTable(form, mem, Table(p, n * entry, entry), base);
  }

  lemma UntouchedKept(form: Form, mem: Memory, after: Memory, p: Word, n: nat, entry: int, base: Word,
                      relocs: seq<Reloc>)
    requires entry > 0 && n * entry >= 0 && relocs == Relocs(form, mem, Table(p, n * entry, entry), base)
    requires forall x: nat :: !Touched(relocs, x) ==> after(x) == mem(x)
    ensures OthersKept(mem, after, p, n, entry, base, RelativeType(form))
  {
    hide Relocs, TypeAt, TargetAt, Slot, RelativeType;
    forall x: nat | after(x) != mem(x)
      ensures exists k :: 0 <= k < n && TypeAt(mem, Slot(p, entry, k)) == RelativeType(form) &&
                          TargetAt(mem, Slot(p, entry, k), base) <= x < TargetAt(mem, Slot(p, entry, k), base) + 8
    {
      var i :| 0 <= i < |relocs| && relocs[i].target <= x < relocs[i].target + 8;
      var k := EntryOfReloc(form, mem, p, n, entry, base, i);
    }
  }

  /** Every relative entry's word has gained the load base, and nothing else has changed. */
  ghost predicate BaseAdded(mem: Memory, after: Memory, base: Word, a: Word, n: nat, entry: Word) {
    var p := (a + base) % 0x1_0000_0000_0000_0000;
    && (forall k :: 0 <= k < n && TypeAt(mem, Slot(p, entry, k)) == 8 ==>
          var target := TargetAt(mem, Slot(p, entry, k), base);
          Load(after, target) == (Load(mem, target) + base) % 0x1_0000_0000_0000_0000)
    && OthersKept(mem, after, p, n, entry, base, 8)
  }

  /** Every relative entry's word is the load base plus the entry's third word, and nothing else has changed. */
  ghost predicate AddendsStored(mem: Memory, after: Memory, base: Word, a: Word, n: nat, entry: Word) {
    var p := (a + base) % 0x1_0000_0000_0000_0000;
    && (forall k :: 0 <= k < n && TypeAt(mem, Slot(p, entry, k)) == 1027 ==>
          Load(after, TargetAt(mem, Slot(p, entry, k), base)) ==
          (base + Load(mem, Slot(p, entry, k) + 16)) % 0x1_0000_0000_0000_0000)
    && OthersKept(mem, after, p, n, entry, base, 1027)
  }

  /** The in-place relocator on a described table adds the load base to the word of every relative entry. */
  lemma X86Table(dyn: seq<Dyn>, mem: Memory, base: Word, a: Word, n: nat, entry: Word)
    requires Describes(dyn, mem, base, a, n, entry, 8, 16)
    ensures var t := TableOf(dyn, base);
      t.rel != 0 && t.entry > 0 && BaseAdded(mem, Looped(InPlace, mem, t, base), base, a, n, entry)
  {
    hide Describes, TableOf, Looped, Relocs, Apply, TypeAt, TargetAt, Slot, Load, DistinctTargets, OthersKept, Touched;
    var p, relocs := DescribedLoop(InPlace, dyn, mem, base, a, n, entry);
    var after := Apply(InPlace, mem, relocs, base);
    InPlaceExact(mem, relocs, base);
    forall k | 0 <= k < n && TypeAt(mem, Slot(p, entry, k)) == 8
      ensures var target := TargetAt(mem, Slot(p, entry, k), base);
        Load(after, target) == (Load(mem, target) + base) % 0x1_0000_0000_0000_0000
    {
      var i := RelocOfEntry(InPlace, mem, p, n, entry, base, k);
      assert relocs[i].target == TargetAt(mem, Slot(p, entry, k), base);
    }
    UntouchedKept(InPlace, mem, after, p, n, entry, base, relocs);
  }

  /** The addend relocator on a described table stores base plus addend in the word of every relative entry. */
  lemma Aarch64Table(dyn: seq<Dyn>, mem: Memory, base: Word, a: Word, n: nat, entry: Word)
    requires Describes(dyn, mem, base, a, n, entry, 1027, 24)
    ensures var t := TableOf(dyn, base);
      t.rel != 0 && t.entry > 0 && AddendsStored(mem, Looped(Addend, mem, t, base), base, a, n, entry)
  {
    hide Describes, TableOf, Looped, Relocs, Apply, TypeAt, TargetAt, Slot, Load, DistinctTargets, OthersKept, Touched;
    var p, relocs := DescribedLoop(Addend, dyn, mem, base, a, n, entry);
    var after := Apply(Addend, mem, relocs, base);
    AddendExact(mem, relocs, base);
    forall k | 0 <= k < n && TypeAt(mem, Slot(p, entry, k)) == 1027
      ensures Load(after, TargetAt(mem, Slot(p, entry, k), base)) ==
              (base + Load(mem, Slot(p, entry, k) + 16)) % 0x1_0000_0000_0000_0000
    {
      var i := RelocOfEntry(Addend, mem, p, n, entry, base, k);
      assert relocs[i].target == TargetAt(mem, Slot(p, entry, k), base);
    }
    UntouchedKept(Addend, mem, after, p, n, entry, base, relocs);
  }

  /** A section with its size in front of its address, and two relative entries: both words gain the base. */
  lemma TwoEntries(mem: Memory)
    requires Load(mem, 0x10_1000) == 0x100 && Load(mem, 0x10_1008) == 8
    requires Load(mem, 0x10_1018) == 0x108 && Load(mem, 0x10_1020) == 8
    ensures var dyn := [Dyn(8, 48), Dyn(7, 0x1000), Dyn(9, 24), Dyn(0, 0)];
      var t := TableOf(dyn, 0x10_0000);
      && t.entry > 0 && var after := Looped(InPlace, mem, t, 0x10_0000);
      && Load(after, 0x10_0100) == (Load(mem, 0x10_0100) + 0x10_0000) % 0x1_0000_0000_0000_0000
      && Load(after, 0x10_0108) == (Load(mem, 0x10_0108) + 0x10_0000) % 0x1_0000_0000_0000_0000
  {
    hide TableOf, Looped, Load, Gives, TypeAt, TargetAt, Slot, TargetsApart, TargetsOffTable;
    var dyn := [Dyn(8, 48), Dyn(7, 0x1000), Dyn(9, 24), Dyn(0, 0)];
    GivenTwo(dyn);
    ReadTwo(mem);
    ApartTwo(mem);
    X86Table(dyn, mem, 0x10_0000, 0x1000, 2, 24);
  }

  lemma GivenTwo(dyn: seq<Dyn>)
    requires dyn == [Dyn(8, 48), Dyn(7, 0x1000), Dyn(9, 24), Dyn(0, 0)]
    ensures Gives(dyn, 7, 0x1000) && Gives(dyn, 8, 48) && Gives(dyn, 9, 24)
  {
    assert EndsAt(dyn, 3);
    assert LastWith(dyn, 3, 8, 0) && LastWith(dyn, 3, 7, 1) && LastWith(dyn, 3, 9, 2);
    hide EndsAt, LastWith;
    assert dyn[0].value == 48 && dyn[1].value == 0x1000 && dyn[2].value == 24;
  }

  lemma ReadTwo(mem: Memory)
    requires Load(mem, 0x10_1000) == 0x100 && Load(mem, 0x10_1008) == 8
    requires Load(mem, 0x10_1018) == 0x108 && Load(mem, 0x10_1020) == 8
    ensures Slot(0x10_1000, 24, 0) == 0x10_1000 && Slot(0x10_1000, 24, 1) == 0x10_1018
    ensures TypeAt(mem, 0x10_1000) == 8 && TargetAt(mem, 0x10_1000, 0x10_0000) == 0x10_0100
    ensures TypeAt(mem, 0x10_1018) == 8 && TargetAt(mem, 0x10_1018, 0x10_0000) == 0x10_0108
  {
    hide Load;
  }

  lemma ApartTwo(mem: Memory)
    requires Slot(0x10_1000, 24, 0) == 0x10_1000 && Slot(0x10_1000, 24, 1) == 0x10_1018
    requires TargetAt(mem, 0x10_1000, 0x10_0000) == 0x10_0100 && TargetAt(mem, 0x10_1018, 0x10_0000) == 0x10_0108
    ensures TargetsApart(mem, 0x10_1000, 2, 24, 0x10_0000, 8)
    ensures TargetsOffTable(mem, 0x10_1000, 2, 24, 0x10_0000, 8, 16)
  {
    hide Slot, TargetAt, TypeAt;
  }

  lemma TablesInPlace(dyn: seq<Dyn>, mem: Memory, base: Word)
    ensures forall a: Word, n: nat, entry: Word :: Describes(dyn, mem, base, a, n, entry, 8, 16) ==>
      TableOf(dyn, base).rel != 0 && TableOf(dyn, base).entry > 0 &&
      BaseAdded(mem, Looped(InPlace, mem, TableOf(dyn, base), base), base, a, n, entry)
  {
    forall a: Word, n: nat, entry: Word | Describes(dyn, mem, base, a, n, entry, 8, 16)
      ensures TableOf(dyn, base).rel != 0 && TableOf(dyn, base).entry > 0 &&
      BaseAdded(mem, Looped(InPlace, mem, TableOf(dyn, base), base), base, a, n, entry)
    {
      hide Describes, TableOf, Looped, BaseAdded;
      X86Table(dyn, mem, base, a, n, entry);
    }
  }

  lemma TablesAddend(dyn: seq<Dyn>, mem: Memory, base: Word)
    ensures forall a: Word, n: nat, entry: Word :: Describes(dyn, mem, base, a, n, entry, 1027, 24) ==>
      TableOf(dyn, base).rel != 0 && TableOf(dyn, base).entry > 0 &&
      AddendsStored(mem, Looped(Addend, mem, TableOf(dyn, base), base), base, a, n, entry)
  {
    forall a: Word, n: nat, entry: Word | Describes(dyn, mem, base, a, n, entry, 1027, 24)
      ensures TableOf(dyn, base).rel != 0 && TableOf(dyn, base).entry > 0 &&
      AddendsStored(mem, Looped(Addend, mem, TableOf(dyn, base), base), base, a, n, entry)
    {
      hide Describes, TableOf, Looped, AddendsStored;
      Aarch64Table(dyn, mem, base, a, n, entry);
    }
  }
}
