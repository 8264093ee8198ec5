/** SetCrc, SetCrcAltSize, CheckCrc and CheckCrcAltSize of gnu-efi/lib/crc.c: the
    CRC field of an EFI table header, at byte 16 of the table, covers the first
    Size bytes of the table with the field itself read as zero. */
module TableHeader {
  import opened BitPolynomials
  import opened Crc32

  const HEADER_SIZE_AT := 12
  const CRC32_AT := 16
  const HEADER_LENGTH := 24

  // ---- Little-endian words in the table -------------------------------------

  function Word(b0: bv8, b1: bv8, b2: bv8, b3: bv8): bv32 {
    (b0 as bv32) | (b1 as bv32 << 8) | (b2 as bv32 << 16) | (b3 as bv32 << 24)
  }

  function WordAt(t: seq<bv8>, at: nat): bv32
    requires at + 4 <= |t|
  {
    Word(t[at], t[at + 1], t[at + 2], t[at + 3])
  }

  lemma WordInjective(a0: bv8, a1: bv8, a2: bv8, a3: bv8, b0: bv8, b1: bv8, b2: bv8, b3: bv8)
    requires Word(a0, a1, a2, a3) == Word(b0, b1, b2, b3)
    ensures a0 == b0 && a1 == b1 && a2 == b2 && a3 == b3
  {}

  lemma WordBytes(w: bv32)
    ensures Word((w & 0xFF) as bv8, ((w >> 8) & 0xFF) as bv8, ((w >> 16) & 0xFF) as bv8, ((w >> 24) & 0xFF) as bv8) == w
  {}

  // ---- What a valid CRC field means -----------------------------------------

  /** The table with its CRC field read as zero. */
  function Cleared(t: seq<bv8>): (r: seq<bv8>)
    requires |t| >= HEADER_LENGTH
    ensures |r| == |t|
  {
    t[..CRC32_AT] + [0, 0, 0, 0] + t[CRC32_AT + 4..]
  }

  ghost predicate Signed(t: seq<bv8>, size: nat)
    requires |t| >= HEADER_LENGTH && size <= |t|
  {
    Bits(WordAt(t, CRC32_AT)) == CrcBits(Cleared(t)[..size])
  }

  // ---- The four functions ---------------------------------------------------

  method StoreCrc(hdr: array<bv8>, w: bv32)
    requires hdr.Length >= HEADER_LENGTH
    modifies hdr
    ensures WordAt(hdr[..], CRC32_AT) == w
    ensures forall i | 0 <= i < hdr.Length && !(CRC32_AT <= i < CRC32_AT + 4) :: hdr[i] == old(hdr[i])
  {
    hdr[CRC32_AT] := (w & 0xFF) as bv8;
    hdr[CRC32_AT + 1] := ((w >> 8) & 0xFF) as bv8;
    hdr[CRC32_AT + 2] := ((w >> 16) & 0xFF) as bv8;
    hdr[CRC32_AT + 3] := ((w >> 24) & 0xFF) as bv8;
    WordBytes(w);
  }

  lemma ClearedField(t: seq<bv8>, u: seq<bv8>)
    requires |t| == |u| >= HEADER_LENGTH && WordAt(u, CRC32_AT) == 0
    requires forall i | 0 <= i < |t| && !(CRC32_AT <= i < CRC32_AT + 4) :: t[i] == u[i]
    ensures u == Cleared(t)
  {
    WordInjective(u[16], u[17], u[18], u[19], 0, 0, 0, 0);
  }

  method SetCrcAltSize(size: nat, hdr: array<bv8>)
    requires hdr.Length >= HEADER_LENGTH && size <= hdr.Length
    modifies hdr
    ensures Signed(hdr[..], size)
    ensures Cleared(hdr[..]) == Cleared(old(hdr[..]))
  {
    ghost var t := hdr[..];
    StoreCrc(hdr, 0);
    ClearedField(t, hdr[..]);
    var crc := CalculateCrc(hdr, size);
    StoreCrc(hdr, crc);
    assert Cleared(hdr[..]) == Cleared(t);
    assert Cleared(t)[..size] == Cleared(hdr[..])[..size];
  }

  /** The size comes from the table's own HeaderSize field. */
  method SetCrc(hdr: array<bv8>)
    requires hdr.Length >= HEADER_LENGTH && WordAt(hdr[..], HEADER_SIZE_AT) as nat <= hdr.Length
    modifies hdr
    ensures WordAt(hdr[..], HEADER_SIZE_AT) == old(WordAt(hdr[..], HEADER_SIZE_AT))
    ensures Signed(hdr[..], WordAt(hdr[..], HEADER_SIZE_AT) as nat)
    ensures Cleared(hdr[..]) == Cleared(old(hdr[..]))
  {
    ghost var t := hdr[..];
    var size := Word(hdr[12], hdr[13], hdr[14], hdr[15]) as nat;
    SetCrcAltSize(size, hdr);
    HeaderSizeUncovered(t, hdr[..]);
  }

  lemma HeaderSizeUncovered(t: seq<bv8>, u: seq<bv8>)
    requires |t| >= HEADER_LENGTH && |u| >= HEADER_LENGTH && Cleared(t) == Cleared(u)
    ensures WordAt(t, HEADER_SIZE_AT) == WordAt(u, HEADER_SIZE_AT)
  {
    assert forall i | 0 <= i < CRC32_AT :: t[i] == Cleared(t)[i] && u[i] == Cleared(u)[i];
  }

  /** True exactly on a non-empty size within the bound and a field that matches;
      the table is left as it was found. */
  method CheckCrcAltSize(maxSize: nat, size: nat, hdr: array<bv8>) returns (f: bool)
    requires hdr.Length >= HEADER_LENGTH
    requires size != 0 && (maxSize == 0 || size <= maxSize) ==> size <= hdr.Length
    modifies hdr
    ensures hdr[..] == old(hdr[..])
    ensures f <==> size != 0 && (maxSize == 0 || size <= maxSize) && Signed(hdr[..], size)
  {
    if size == 0 {
      return false;
    }
    if maxSize != 0 && size > maxSize {
      return false;
    }
    ghost var t := hdr[..];
    var orgCrc := Word(hdr[16], hdr[17], hdr[18], hdr[19]);
    StoreCrc(hdr, 0);
    ClearedField(t, hdr[..]);
    var crc := CalculateCrc(hdr, size);
    StoreCrc(hdr, orgCrc);
    assert Cleared(hdr[..]) == Cleared(t);
    RestoreField(t, hdr[..]);
    f := orgCrc == crc;
    if Bits(orgCrc) == Bits(crc) {
      BitsInjective(orgCrc, crc);
    }
  }

  lemma RestoreField(t: seq<bv8>, u: seq<bv8>)
    requires |t| >= HEADER_LENGTH && |u| >= HEADER_LENGTH && Cleared(t) == Cleared(u)
    requires WordAt(t, CRC32_AT) == WordAt(u, CRC32_AT)
    ensures t == u
  {
    WordInjective(t[16], t[17], t[18], t[19], u[16], u[17], u[18], u[19]);
    forall i | 0 <= i < |t|
      ensures t[i] == u[i]
    {
      if !(CRC32_AT <= i < CRC32_AT + 4) {
        assert t[i] == Cleared(t)[i] && u[i] == Cleared(u)[i];
      }
    }
  }

  method CheckCrc(maxSize: nat, hdr: array<bv8>) returns (f: bool)
    requires hdr.Length >= HEADER_LENGTH
    requires var size := WordAt(hdr[..], HEADER_SIZE_AT) as nat;
             size != 0 && (maxSize == 0 || size <= maxSize) ==> size <= hdr.Length
    modifies hdr
    ensures hdr[..] == old(hdr[..])
    ensures var size := WordAt(hdr[..], HEADER_SIZE_AT) as nat;
            f <==> size != 0 && (maxSize == 0 || size <= maxSize) && Signed(hdr[..], size)
  {
    f := CheckCrcAltSize(maxSize, Word(hdr[12], hdr[13], hdr[14], hdr[15]) as nat, hdr);
  }

  // ---- What the check catches -----------------------------------------------

  lemma ClearedAt(t: seq<bv8>, i: nat)
    requires |t| >= HEADER_LENGTH && i < |t|
    ensures Cleared(t)[i] == if 16 <= i < 20 then 0 else t[i]
  {}

  /** Damage confined to 32 consecutive bits of the covered bytes, the stored
      CRC itself being intact, never passes the check. */
  lemma BurstFailsCheck(t: seq<bv8>, u: seq<bv8>, size: nat, from: nat)
    requires |t| == |u| >= HEADER_LENGTH && size <= |t|
    requires Signed(t, size)
    requires t[CRC32_AT..CRC32_AT + 4] == u[CRC32_AT..CRC32_AT + 4]
    requires t[..size] != u[..size]
    requires DifferWithin(MessageBits(t[..size]), MessageBits(u[..size]), from)
    ensures !Signed(u, size)
  {
    var m, n := Cleared(t)[..size], Cleared(u)[..size];
    SameField(t, u);
    ClearedDiffer(t, u, size);
    forall i | 0 <= i < 8 * size && !(from <= i < from + 32)
      ensures MessageBits(m)[i] == MessageBits(n)[i]
    {
      assert MessageBits(t[..size])[i] == MessageBits(u[..size])[i];
      ClearedBit(t, u, size, i);
    }
    BurstDetected(m, n, from);
  }

  lemma ClearedBit(t: seq<bv8>, u: seq<bv8>, size: nat, i: nat)
    requires |t| == |u| >= HEADER_LENGTH && size <= |t| && i < 8 * size
    requires MessageBits(t[..size])[i] == MessageBits(u[..size])[i]
    ensures MessageBits(Cleared(t)[..size])[i] == MessageBits(Cleared(u)[..size])[i]
  {
    hide *;
    MessageBitsAt(t[..size], i);
    MessageBitsAt(u[..size], i);
    MessageBitsAt(Cleared(t)[..size], i);
    MessageBitsAt(Cleared(u)[..size], i);
    ClearedAt(t, i / 8);
    ClearedAt(u, i / 8);
  }

  lemma SameField(t: seq<bv8>, u: seq<bv8>)
    requires |t| == |u| >= HEADER_LENGTH
    requires t[CRC32_AT..CRC32_AT + 4] == u[CRC32_AT..CRC32_AT + 4]
    ensures forall i | CRC32_AT <= i < CRC32_AT + 4 :: t[i] == u[i]
    ensures WordAt(t, CRC32_AT) == WordAt(u, CRC32_AT)
  {
    forall i | CRC32_AT <= i < CRC32_AT + 4
      ensures t[i] == u[i]
    {
      assert t[CRC32_AT..CRC32_AT + 4][i - CRC32_AT] == u[CRC32_AT..CRC32_AT + 4][i - CRC32_AT];
    }
  }

  lemma ClearedDiffer(t: seq<bv8>, u: seq<bv8>, size: nat)
    requires |t| == |u| >= HEADER_LENGTH && size <= |t| && t[..size] != u[..size]
    requires forall i | CRC32_AT <= i < CRC32_AT + 4 :: t[i] == u[i]
    ensures Cleared(t)[..size] != Cleared(u)[..size]
  {
    var k :| 0 <= k < size && t[k] != u[k];
    ClearedAt(t, k);
    ClearedAt(u, k);
    assert Cleared(t)[..size][k] != Cleared(u)[..size][k];
  }

  /** Any change of at most four consecutive covered bytes, the stored CRC being intact, fails the check. */
  lemma FourBytesFailCheck(t: seq<bv8>, u: seq<bv8>, size: nat, at: nat)
    requires |t| == |u| >= HEADER_LENGTH && size <= |t|
    requires Signed(t, size)
    requires t[CRC32_AT..CRC32_AT + 4] == u[CRC32_AT..CRC32_AT + 4]
    requires t[..size] != u[..size]
    requires forall i | 0 <= i < size && !(at <= i < at + 4) :: t[i] == u[i]
    ensures !Signed(u, size)
  {
    hide CrcBits, Cleared, WordAt;
    var m, n := Cleared(t)[..size], Cleared(u)[..size];
    SameField(t, u);
    ClearedDiffer(t, u, size);
    forall i | 0 <= i < |m| && !(at <= i < at + 4)
      ensures m[i] == n[i]
    {
      ClearedAt(t, i);
      ClearedAt(u, i);
    }
    FourByteBurst(m, n, at);
  }

  /** The check looks at the first `size` bytes and the field, and at no other byte of the table. */
  lemma SignedPrefix(t: seq<bv8>, u: seq<bv8>, size: nat)
    requires |t| >= HEADER_LENGTH && |u| >= HEADER_LENGTH && size <= |t| && size <= |u|
    requires t[..size] == u[..size] && t[16..20] == u[16..20]
    ensures Signed(t, size) <==> Signed(u, size)
  {
    hide CrcBits;
    assert forall i | 16 <= i < 20 :: t[i] == t[16..20][i - 16] && u[i] == u[16..20][i - 16];
    forall i | 0 <= i < size
      ensures Cleared(t)[i] == Cleared(u)[i]
    {
      ClearedAt(t, i);
      ClearedAt(u, i);
      assert t[i] == t[..size][i] && u[i] == u[..size][i];
    }
    assert Cleared(t)[..size] == Cleared(u)[..size];
  }

  /** Any change of the stored CRC alone fails the check. */
  lemma FieldChangeFailsCheck(t: seq<bv8>, u: seq<bv8>, size: nat)
    requires |t| == |u| >= HEADER_LENGTH && size <= |t|
    requires Signed(t, size) && Cleared(t) == Cleared(u) && t != u
    ensures !Signed(u, size)
  {
    if Signed(u, size) {
      BitsInjective(WordAt(t, CRC32_AT), WordAt(u, CRC32_AT));
      RestoreField(t, u);
    }
  }
}
