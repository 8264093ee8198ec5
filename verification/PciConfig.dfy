// PCI configuration accesses through the address and data ports, and the byte space they implement.

module PciConfig {
  const CONFIG_ADDRESS: bv16 := 0xCF8
  const CONFIG_DATA: bv16 := 0xCFC

  /** One byte of the configuration space, as a caller of the accessors names it. */
  datatype Location = Location(bus: bv8, slot: bv8, fun: bv8, offset: bv16)

  /** The configuration dwords, indexed by what is written to the address port. */
  type Dwords = bv32 -> bv32

  /** A byte-addressed configuration space. */
  type Space = Location -> bv8

  /** The locations that exist: five bits of slot, three of function, 256 bytes. */
  predicate Exists(l: Location) {
    l.slot < 32 && l.fun < 8 && l.offset < 256
  }

  /** The word that selects a dword on the address port. */
  function Selector(bus: bv8, slot: bv8, fun: bv8, dword: bv16): bv32 {
    (bus as bv32 << 16) | (slot as bv32 << 11) | (fun as bv32 << 8) | dword as bv32 | 0x8000_0000
  }

  /** The offset of the dword that holds byte `offset`. */
  function DwordOf(offset: bv16): bv16 {
    offset & 0xFC
  }

  function Address(l: Location): bv32 {
    Selector(l.bus, l.slot, l.fun, DwordOf(l.offset))
  }

  // ---- Which locations share a dword ----

  lemma SelectorFields(b: bv8, s: bv8, f: bv8, o: bv16, c: bv8, t: bv8, g: bv8, p: bv16)
    requires s < 32 && t < 32 && f < 8 && g < 8 && DwordOf(o) == o && DwordOf(p) == p
    requires Selector(b, s, f, o) == Selector(c, t, g, p)
    ensures b == c && s == t && f == g && o == p
  {
  }

  lemma DwordOfDword(o: bv16)
    ensures DwordOf(DwordOf(o)) == DwordOf(o)
  {
  }

  /** The selector: the enable bit, eight bits of bus, five of slot, three of function and the dword offset. */
  lemma SelectorLayout(b: bv8, s: bv8, f: bv8, o: bv16)
    requires s < 32 && f < 8 && o < 256 && o & 3 == 0
    ensures var w := Selector(b, s, f, o);
      && w >> 24 == 0x80 && (w >> 16) & 0xFF == b as bv32 && (w >> 11) & 0x1F == s as bv32
      && (w >> 8) & 7 == f as bv32 && w & 0xFF == o as bv32
  {
  }

  /** The dword of a byte starts at the multiple of four at or below it. */
  lemma DwordFloor(o: bv16)
    requires o < 256
    ensures DwordOf(o) & 3 == 0 && DwordOf(o) <= o && o - DwordOf(o) < 4
  {
  }

  /** Existing locations share a dword exactly when bus, slot, function and dword offset agree. */
  lemma AddressInjective(l: Location, m: Location)
    requires Exists(l) && Exists(m)
    ensures Address(l) == Address(m) <==>
            l.bus == m.bus && l.slot == m.slot && l.fun == m.fun && DwordOf(l.offset) == DwordOf(m.offset)
  {
    hide Selector, DwordOf;
    DwordOfDword(l.offset);
    DwordOfDword(m.offset);
    if Address(l) == Address(m) {
      SelectorFields(l.bus, l.slot, l.fun, DwordOf(l.offset), m.bus, m.slot, m.fun, DwordOf(m.offset));
    }
  }

  function SpilledBus(bus: bv8, slot: bv8): bv8 {
    bus | (slot >> 5)
  }

  function SpilledSlot(slot: bv8, fun: bv8): bv8 {
    (slot & 31) | (fun >> 3)
  }

  /** The existing location that an access to `l` really reaches: high slot and function bits spill over. */
  function Reached(l: Location): Location {
    Location(SpilledBus(l.bus, l.slot), SpilledSlot(l.slot, l.fun), l.fun & 7, l.offset)
  }

  lemma SpilledSelector(b: bv8, s: bv8, f: bv8, o: bv16)
    ensures Selector(b, s, f, o) == Selector(SpilledBus(b, s), SpilledSlot(s, f), f & 7, o)
    ensures SpilledSlot(s, f) < 32 && f & 7 < 8
    ensures s < 32 && f < 8 ==> SpilledBus(b, s) == b && SpilledSlot(s, f) == s && f & 7 == f
  {
  }

  /** An access outside the existing slots or functions is an access to another location, one that exists. */
  lemma OutsideAliases(l: Location)
    requires l.offset < 256
    ensures Address(l) == Address(Reached(l)) && Exists(Reached(l))
    ensures Reached(l) == l <==> Exists(l)
  {
    hide Selector, SpilledBus, SpilledSlot, DwordOf;
    SpilledSelector(l.bus, l.slot, l.fun, DwordOf(l.offset));
  }

  /** Slot 32 of bus 0 is slot 0 of bus 1. */
  lemma SlotSpills()
    ensures Address(Location(0, 32, 0, 0)) == Address(Location(1, 0, 0, 0))
  {
    hide Selector, DwordOf, Exists;
    OutsideAliases(Location(0, 32, 0, 0));
    assert Reached(Location(0, 32, 0, 0)) == Location(1, 0, 0, 0);
  }

  // ---- Bytes of a dword ----

  /** Byte `i` of a dword, counted from the least significant one. */
  function Lane(d: bv32, i: bv16): bv8 {
    if i & 3 == 0 then (d & 0xFF) as bv8
    else if i & 3 == 1 then ((d >> 8) & 0xFF) as bv8
    else if i & 3 == 2 then ((d >> 16) & 0xFF) as bv8
    else ((d >> 24) & 0xFF) as bv8
  }

  /** The little-endian values of two and of four bytes. */
  function Little2(a: bv8, b: bv8): bv16 {
    a as bv16 | (b as bv16 << 8)
  }

  function Little4(a: bv8, b: bv8, c: bv8, d: bv8): bv32 {
    a as bv32 | (b as bv32 << 8) | (c as bv32 << 16) | (d as bv32 << 24)
  }

  /** The first byte is the low one. */
  lemma LowFirst2(a: bv8, b: bv8)
    ensures Little2(a, b) & 0xFF == a as bv16 && Little2(a, b) >> 8 == b as bv16
  {
  }

  lemma LowFirst4(a: bv8, b: bv8, c: bv8, d: bv8)
    ensures var w := Little4(a, b, c, d);
      w & 0xFF == a as bv32 && (w >> 8) & 0xFF == b as bv32 && (w >> 16) & 0xFF == c as bv32 && w >> 24 == d as bv32
  {
  }

  function Plus(o: bv16, i: bv16): bv16 {
    o + i
  }

  function Minus(p: bv16, o: bv16): bv16 {
    p - o
  }

  function ByteIn(d: bv32, o: bv16): bv8 {
    ((d >> ((o & 3) * 8)) & 0xFF) as bv8
  }

  function WordIn(d: bv32, o: bv16): bv16 {
    ((d >> ((o & 2) * 8)) & 0xFFFF) as bv16
  }

  function ByteMerged(d: bv32, o: bv16, v: bv8): bv32 {
    (d & !(0xFF << ((o & 3) * 8))) | (v as bv32 << ((o & 3) * 8))
  }

  function WordMerged(d: bv32, o: bv16, v: bv16): bv32 {
    (d & !(0xFFFF << ((o & 2) * 8))) | (v as bv32 << ((o & 2) * 8))
  }

  lemma ByteRead(d: bv32, o: bv16)
    ensures ByteIn(d, o) == Lane(d, o)
  {
  }

  lemma WordRead(d: bv32, o: bv16)
    requires o & 1 == 0
    ensures WordIn(d, o) == Little2(Lane(d, o), Lane(d, Plus(o, 1)))
  {
  }

  lemma DwordRead(d: bv32, o: bv16)
    requires o & 3 == 0
    ensures d == Little4(Lane(d, o), Lane(d, Plus(o, 1)), Lane(d, Plus(o, 2)), Lane(d, Plus(o, 3)))
  {
  }

  lemma ByteMask(d: bv32, o: bv16, v: bv8)
    ensures o & 3 == 0 ==> ByteMerged(d, o, v) == (d & 0xFFFF_FF00) | v as bv32
    ensures o & 3 == 1 ==> ByteMerged(d, o, v) == (d & 0xFFFF_00FF) | (v as bv32 << 8)
    ensures o & 3 == 2 ==> ByteMerged(d, o, v) == (d & 0xFF00_FFFF) | (v as bv32 << 16)
    ensures o & 3 == 3 ==> ByteMerged(d, o, v) == (d & 0x00FF_FFFF) | (v as bv32 << 24)
  {
  }

  lemma Lane0(d: bv32, v: bv8, e: bv32, p: bv16)
    requires e == (d & 0xFFFF_FF00) | v as bv32
    ensures p & 3 == 0 ==> Lane(e, p) == v
    ensures p & 3 != 0 ==> Lane(e, p) == Lane(d, p)
  {
  }

  lemma Lane1(d: bv32, v: bv8, e: bv32, p: bv16)
    requires e == (d & 0xFFFF_00FF) | (v as bv32 << 8)
    ensures p & 3 == 1 ==> Lane(e, p) == v
    ensures p & 3 != 1 ==> Lane(e, p) == Lane(d, p)
  {
  }

  lemma Lane2(d: bv32, v: bv8, e: bv32, p: bv16)
    requires e == (d & 0xFF00_FFFF) | (v as bv32 << 16)
    ensures p & 3 == 2 ==> Lane(e, p) == v
    ensures p & 3 != 2 ==> Lane(e, p) == Lane(d, p)
  {
  }

  lemma Lane3(d: bv32, v: bv8, e: bv32, p: bv16)
    requires e == (d & 0x00FF_FFFF) | (v as bv32 << 24)
    ensures p & 3 == 3 ==> Lane(e, p) == v
    ensures p & 3 != 3 ==> Lane(e, p) == Lane(d, p)
  {
  }

  lemma LowBits(o: bv16)
    ensures o & 3 == 0 || o & 3 == 1 || o & 3 == 2 || o & 3 == 3
  {
  }

  lemma ByteWritten(d: bv32, o: bv16, v: bv8, p: bv16)
    ensures Lane(ByteMerged(d, o, v), p) == if o & 3 == p & 3 then v else Lane(d, p)
  {
    hide *;
    LowBits(o);
    ByteMask(d, o, v);
    var e := ByteMerged(d, o, v);
    if o & 3 == 0 {
      Lane0(d, v, e, p);
    } else if o & 3 == 1 {
      Lane1(d, v, e, p);
    } else if o & 3 == 2 {
      Lane2(d, v, e, p);
    } else {
      Lane3(d, v, e, p);
    }
  }

  /** Which half of its dword an offset lies in: 0 or 2. */
  function Half(o: bv16): bv16 {
    o & 2
  }

  lemma WordHalves(d: bv32, o: bv16, v: bv16)
    ensures Half(o) == 0 ==> WordMerged(d, o, v) == (d & 0xFFFF_0000) | v as bv32
    ensures Half(o) == 2 ==> WordMerged(d, o, v) == (d & 0xFFFF) | (v as bv32 << 16)
  {
  }

  /** Byte `i` of a word. */
  function WordLane(v: bv16, i: bv16): bv8 {
    if i & 1 == 0 then (v & 0xFF) as bv8 else (v >> 8) as bv8
  }

  lemma LowHalf(d: bv32, v: bv16, e: bv32, o: bv16, p: bv16)
    requires o & 1 == 0 && Half(o) == 0 && e == (d & 0xFFFF_0000) | v as bv32
    ensures Half(p) == 0 ==> Lane(e, p) == WordLane(v, Minus(p, o))
    ensures Half(p) == 2 ==> Lane(e, p) == Lane(d, p)
  {
  }

  lemma HighHalf(d: bv32, v: bv16, e: bv32, o: bv16, p: bv16)
    requires o & 1 == 0 && Half(o) == 2 && e == (d & 0xFFFF) | (v as bv32 << 16)
    ensures Half(p) == 0 ==> Lane(e, p) == Lane(d, p)
    ensures Half(p) == 2 ==> Lane(e, p) == WordLane(v, Minus(p, o))
  {
  }

  lemma HalfRange(o: bv16)
    ensures Half(o) == 0 || Half(o) == 2
  {
  }

  lemma WordWritten(d: bv32, o: bv16, v: bv16, p: bv16)
    requires o & 1 == 0
    ensures Lane(WordMerged(d, o, v), p) == if Half(o) == Half(p) then WordLane(v, Minus(p, o)) else Lane(d, p)
  {
    hide *;
    HalfRange(o);
    HalfRange(p);
    WordHalves(d, o, v);
    if Half(o) == 0 {
      LowHalf(d, v, WordMerged(d, o, v), o, p);
    } else {
      HighHalf(d, v, WordMerged(d, o, v), o, p);
    }
  }

  lemma DwordWritten(v: bv32, o: bv16, p: bv16)
    requires o & 3 == 0
    ensures Lane(v, p) == Lane(v, Minus(p, o))
  {
  }

  // ---- The byte space ----

  /** The accesses a caller can make. */
  datatype Access =
    | ReadByte(at: Location)
    | ReadWord(at: Location)
    | ReadDword(at: Location)
    | WriteByte(at: Location, byte: bv8)
    | WriteWord(at: Location, word: bv16)
    | WriteDword(at: Location, dword: bv32)

  /** What an access gives its caller. */
  datatype Reply = Byte(byte: bv8) | Word(word: bv16) | Dword(dword: bv32) | Nothing

  /** In range and aligned to its width; every other access is refused. */
  predicate Admitted(a: Access) {
    a.at.offset < 256 &&
    match a
    case ReadByte(_) | WriteByte(_, _) => true
    case ReadWord(_) | WriteWord(_, _) => a.at.offset & 1 == 0
    case ReadDword(_) | WriteDword(_, _) => a.at.offset & 3 == 0
  }

  function After(l: Location, i: bv16): Location {
    l.(offset := Plus(l.offset, i))
  }

  /** Whether offset `p` lies in the `width` offsets from `o` on. */
  predicate Covers(o: bv16, width: bv16, p: bv16) {
    o <= p && Minus(p, o) < width
  }

  predicate SameFunction(l: Location, m: Location) {
    l.bus == m.bus && l.slot == m.slot && l.fun == m.fun
  }

  /** What an access returns in the byte space: little-endian values, all ones when refused. */
  function Answer(space: Space, a: Access): Reply {
    match a
    case ReadByte(l) => Byte(if Admitted(a) then space(l) else 0xFF)
    case ReadWord(l) => Word(if Admitted(a) then Little2(space(l), space(After(l, 1))) else 0xFFFF)
    case ReadDword(l) =>
      Dword(if Admitted(a) then Little4(space(l), space(After(l, 1)), space(After(l, 2)), space(After(l, 3)))
            else 0xFFFF_FFFF)
    case _ => Nothing
  }

  /** The byte at `m` after an access: replaced where an admitted write covers it, kept everywhere else. */
  function Left(space: Space, a: Access, m: Location): bv8 {
    if !Admitted(a) || !SameFunction(a.at, m) then space(m) else
      match a
      case WriteByte(l, v) => if Covers(l.offset, 1, m.offset) then v else space(m)
      case WriteWord(l, v) =>
        if Covers(l.offset, 2, m.offset) then WordLane(v, Minus(m.offset, l.offset)) else space(m)
      case WriteDword(l, v) =>
        if Covers(l.offset, 4, m.offset) then Lane(v, Minus(m.offset, l.offset)) else space(m)
      case _ => space(m)
  }

  function Update(space: Space, a: Access): Space {
    m => Left(space, a, m)
  }

  function FinalSpace(space: Space, accesses: seq<Access>): Space {
    if accesses == [] then space else FinalSpace(Update(space, accesses[0]), accesses[1..])
  }

  function Answers(space: Space, accesses: seq<Access>): (r: seq<Reply>)
    ensures |r| == |accesses|
  {
    if accesses == [] then [] else [Answer(space, accesses[0])] + Answers(Update(space, accesses[0]), accesses[1..])
  }

  /** Within a dword, the bytes an aligned access covers are told by the low offset bits. */
  lemma CoveredByte(o: bv16, p: bv16)
    requires o < 256 && p < 256
    ensures Covers(o, 1, p) <==> DwordOf(o) == DwordOf(p) && o & 3 == p & 3
  {
  }

  lemma CoveredWord(o: bv16, p: bv16)
    requires o < 256 && p < 256 && o & 1 == 0
    ensures Covers(o, 2, p) <==> DwordOf(o) == DwordOf(p) && Half(o) == Half(p)
  {
  }

  lemma CoveredDword(o: bv16, p: bv16)
    requires o < 256 && p < 256 && o & 3 == 0
    ensures Covers(o, 4, p) <==> DwordOf(o) == DwordOf(p)
  {
  }

  lemma SameDword(o: bv16)
    requires o < 256
    ensures o & 1 == 0 ==> DwordOf(Plus(o, 1)) == DwordOf(o)
    ensures o & 3 == 0 ==> o & 1 == 0 && DwordOf(Plus(o, 2)) == DwordOf(o) && DwordOf(Plus(o, 3)) == DwordOf(o)
  {
  }

  // ---- One access, against the byte space ----

  /** The byte that the dwords hold for location `l`. */
  function ByteAt(dwords: Dwords, l: Location): bv8 {
    Lane(dwords(Address(l)), l.offset)
  }

  function Bytes(dwords: Dwords): Space {
    l => ByteAt(dwords, l)
  }

  function Put(dwords: Dwords, address: bv32, value: bv32): Dwords {
    x => if x == address then value else dwords(x)
  }

  /** The same access at the location it really reaches. */
  function Redirected(a: Access): Access {
    match a
    case ReadByte(l) => ReadByte(Reached(l))
    case ReadWord(l) => ReadWord(Reached(l))
    case ReadDword(l) => ReadDword(Reached(l))
    case WriteByte(l, v) => WriteByte(Reached(l), v)
    case WriteWord(l, v) => WriteWord(Reached(l), v)
    case WriteDword(l, v) => WriteDword(Reached(l), v)
  }

  /**
   * From dwords `d` to dwords `e`, an access does what the byte space says it does at the location it reaches,
   * and touches no other dword.
   */
  ghost predicate Performed(d: Dwords, a: Access, e: Dwords, reply: Reply) {
    if !Admitted(a) then e == d && reply == Answer(Bytes(d), a) else
      && reply == Answer(Bytes(d), Redirected(a))
      && (forall m :: Exists(m) ==> ByteAt(e, m) == Left(Bytes(d), Redirected(a), m))
      && (forall address :: address != Address(a.at) ==> e(address) == d(address))
  }

  lemma FollowingLane(d: Dwords, l: Location, i: bv16)
    requires DwordOf(Plus(l.offset, i)) == DwordOf(l.offset)
    ensures ByteAt(d, After(l, i)) == Lane(d(Address(l)), Plus(l.offset, i))
  {
    hide Selector, Lane, DwordOf, Plus;
  }

  lemma WordAnswer(d: Dwords, l: Location)
    requires l.offset < 256 && l.offset & 1 == 0
    ensures Little2(ByteAt(d, l), ByteAt(d, After(l, 1))) == WordIn(d(Address(l)), l.offset)
  {
    hide Address, Lane, DwordOf, After, Plus, WordIn, Little2;
    SameDword(l.offset);
    FollowingLane(d, l, 1);
    WordRead(d(Address(l)), l.offset);
  }

  lemma DwordAnswer(d: Dwords, l: Location)
    requires l.offset < 256 && l.offset & 3 == 0
    ensures d(Address(l)) ==
            Little4(ByteAt(d, l), ByteAt(d, After(l, 1)), ByteAt(d, After(l, 2)), ByteAt(d, After(l, 3)))
  {
    hide Address, Lane, DwordOf, After, Plus, Little4;
    SameDword(l.offset);
    FollowingLane(d, l, 1);
    FollowingLane(d, l, 2);
    FollowingLane(d, l, 3);
    DwordRead(d(Address(l)), l.offset);
  }

  lemma AccessReaches(a: Access)
    requires Admitted(a)
    ensures Admitted(Redirected(a)) && Address(Redirected(a).at) == Address(a.at) && Exists(Redirected(a).at)
    ensures Redirected(a).at == Reached(a.at) && Reached(a.at).offset == a.at.offset
  {
    hide Address, Exists, SpilledBus, SpilledSlot;
    OutsideAliases(a.at);
  }

  lemma ReadPerforms(d: Dwords, a: Access)
    requires Admitted(a) && (a.ReadByte? || a.ReadWord? || a.ReadDword?)
    ensures Performed(d, a, d, Answer(Bytes(d), Redirected(a)))
  {
    hide Admitted, Address, Exists, Answer, ByteAt, SameFunction, Reached;
  }

  lemma ByteLeft(d: Dwords, l: Location, v: bv8, e: Dwords, m: Location)
    requires Exists(l) && Exists(m)
    requires e == Put(d, Address(l), ByteMerged(d(Address(l)), l.offset, v))
    ensures ByteAt(e, m) == Left(Bytes(d), WriteByte(l, v), m)
  {
    hide Address, DwordOf, Lane, ByteMerged, Covers;
    AddressInjective(l, m);
    CoveredByte(l.offset, m.offset);
    ByteWritten(d(Address(l)), l.offset, v, m.offset);
  }

  lemma WordLeft(d: Dwords, l: Location, v: bv16, e: Dwords, m: Location)
    requires Exists(l) && Exists(m) && l.offset & 1 == 0
    requires e == Put(d, Address(l), WordMerged(d(Address(l)), l.offset, v))
    ensures ByteAt(e, m) == Left(Bytes(d), WriteWord(l, v), m)
  {
    hide Address, DwordOf, Lane, WordMerged, Covers, WordLane, Minus, Half;
    AddressInjective(l, m);
    CoveredWord(l.offset, m.offset);
    WordWritten(d(Address(l)), l.offset, v, m.offset);
  }

  lemma DwordLeft(d: Dwords, l: Location, v: bv32, e: Dwords, m: Location)
    requires Exists(l) && Exists(m) && l.offset & 3 == 0
    requires e == Put(d, Address(l), v)
    ensures ByteAt(e, m) == Left(Bytes(d), WriteDword(l, v), m)
  {
    hide Address, DwordOf, Lane, Covers, Minus;
    AddressInjective(l, m);
    CoveredDword(l.offset, m.offset);
    DwordWritten(v, l.offset, m.offset);
  }

  /** What an admitted write stores in its dword. */
  function Merged(a: Access, d: bv32): bv32 {
    match a
    case WriteByte(l, v) => ByteMerged(d, l.offset, v)
    case WriteWord(l, v) => WordMerged(d, l.offset, v)
    case WriteDword(_, v) => v
    case _ => d
  }

  lemma WritePerforms(d: Dwords, a: Access, e: Dwords)
    requires Admitted(a) && (a.WriteByte? || a.WriteWord? || a.WriteDword?)
    requires e == Put(d, Address(a.at), Merged(a, d(Address(a.at))))
    ensures Performed(d, a, e, Nothing)
  {
    hide Address, Exists, ByteAt, Left, Reached, ByteMerged, WordMerged;
    AccessReaches(a);
    var b := Redirected(a);
    forall m | Exists(m)
      ensures ByteAt(e, m) == Left(Bytes(d), b, m)
    {
      match b
      case WriteByte(l, v) => ByteLeft(d, l, v, e, m);
      case WriteWord(l, v) => WordLeft(d, l, v, e, m);
      case WriteDword(l, v) => DwordLeft(d, l, v, e, m);
    }
  }

  // ---- What an access to an existing location does ----

  lemma CoversOne(o: bv16, p: bv16)
    requires o < 256
    ensures Covers(o, 1, p) <==> p == o
  {
    hide Plus, Minus;
    Rejoined(o, p);
    Differences(o);
    SmallDifference(Minus(p, o));
    NoWrap(o);
  }

  lemma CoversTwo(o: bv16, p: bv16)
    requires o < 256
    ensures Covers(o, 2, p) <==> p == o || p == Plus(o, 1)
  {
    hide Plus, Minus;
    Differences(o);
    NoWrap(o);
    if Covers(o, 2, p) {
      Rejoined(o, p);
      SmallDifference(Minus(p, o));
    }
  }

  lemma CoversFour(o: bv16, p: bv16)
    requires o < 256
    ensures Covers(o, 4, p) <==> p == o || p == Plus(o, 1) || p == Plus(o, 2) || p == Plus(o, 3)
  {
    hide Plus, Minus;
    Rejoined(o, p);
    Differences(o);
    SmallDifference(Minus(p, o));
    NoWrap(o);
  }

  lemma Rejoined(o: bv16, p: bv16)
    ensures Plus(o, Minus(p, o)) == p && Plus(o, 0) == o
  {
  }

  lemma SmallDifference(x: bv16)
    ensures x < 1 ==> x == 0
    ensures x < 2 ==> x == 0 || x == 1
    ensures x < 4 ==> x == 0 || x == 1 || x == 2 || x == 3
  {
  }

  lemma NoWrap(o: bv16)
    requires o < 256
    ensures o <= Plus(o, 1) && o <= Plus(o, 2) && o <= Plus(o, 3)
  {
  }

  lemma Differences(o: bv16)
    ensures Minus(o, o) == 0 && Minus(Plus(o, 1), o) == 1 && Minus(Plus(o, 2), o) == 2 && Minus(Plus(o, 3), o) == 3
  {
  }

  lemma WordLanes(v: bv16)
    ensures WordLane(v, 0) == (v & 0xFF) as bv8 && WordLane(v, 1) == (v >> 8) as bv8
  {
  }

  lemma DwordLanes(v: bv32)
    ensures Lane(v, 0) == (v & 0xFF) as bv8 && Lane(v, 1) == ((v >> 8) & 0xFF) as bv8
    ensures Lane(v, 2) == ((v >> 16) & 0xFF) as bv8 && Lane(v, 3) == (v >> 24) as bv8
  {
  }

  /** Every existing byte outside the given ones is as before. */
  ghost predicate KeptExcept(d: Dwords, e: Dwords, changed: set<Location>) {
    forall m :: Exists(m) && m !in changed ==> ByteAt(e, m) == ByteAt(d, m)
  }

  lemma WroteByte(d: Dwords, l: Location, v: bv8, e: Dwords)
    requires Exists(l) && Performed(d, WriteByte(l, v), e, Nothing)
    ensures ByteAt(e, l) == v && KeptExcept(d, e, {l})
  {
    hide Address, Lane, Covers, ByteAt;
    StaysPut(WriteByte(l, v));
    forall m | Exists(m)
      ensures ByteAt(e, m) == if m == l then v else ByteAt(d, m)
    {
      CoversOne(l.offset, m.offset);
    }
  }

  lemma WroteWord(d: Dwords, l: Location, v: bv16, e: Dwords)
    requires Exists(l) && l.offset & 1 == 0 && Performed(d, WriteWord(l, v), e, Nothing)
    ensures ByteAt(e, l) == (v & 0xFF) as bv8 && ByteAt(e, After(l, 1)) == (v >> 8) as bv8
    ensures KeptExcept(d, e, {l, After(l, 1)})
  {
    hide Address, Lane, Covers, ByteAt, WordLane, Minus, Plus;
    StaysPut(WriteWord(l, v));
    NextExists(l.offset);
    Differences(l.offset);
    forall m | Exists(m)
      ensures ByteAt(e, m) ==
              if m == l then WordLane(v, 0) else if m == After(l, 1) then WordLane(v, 1) else ByteAt(d, m)
    {
      CoversTwo(l.offset, m.offset);
    }
    WordLanes(v);
  }

  lemma WroteDword(d: Dwords, l: Location, v: bv32, e: Dwords)
    requires Exists(l) && l.offset & 3 == 0 && Performed(d, WriteDword(l, v), e, Nothing)
    ensures ByteAt(e, l) == (v & 0xFF) as bv8 && ByteAt(e, After(l, 1)) == ((v >> 8) & 0xFF) as bv8
    ensures ByteAt(e, After(l, 2)) == ((v >> 16) & 0xFF) as bv8 && ByteAt(e, After(l, 3)) == (v >> 24) as bv8
    ensures KeptExcept(d, e, {l, After(l, 1), After(l, 2), After(l, 3)})
  {
    hide Address, Lane, Covers, ByteAt, Minus, Plus;
    StaysPut(WriteDword(l, v));
    NextExists(l.offset);
    Differences(l.offset);
    forall m | Exists(m)
      ensures ByteAt(e, m) == if m == l then Lane(v, 0) else if m == After(l, 1) then Lane(v, 1)
                              else if m == After(l, 2) then Lane(v, 2)
                              else if m == After(l, 3) then Lane(v, 3) else ByteAt(d, m)
    {
      CoversFour(l.offset, m.offset);
    }
    DwordLanes(v);
  }

  /** The two configuration ports and the storage behind them. */
  class Ports {
    var address: bv32
    var dwords: Dwords

    method Outl(port: bv16, value: bv32)
      requires port == CONFIG_ADDRESS || port == CONFIG_DATA
      modifies this
      ensures port == CONFIG_ADDRESS ==> address == value && dwords == old(dwords)
      ensures port == CONFIG_DATA ==> address == old(address) && dwords == Put(old(dwords), address, value)
    {
      if port == CONFIG_ADDRESS {
        address := value;
      } else {
        dwords := Put(dwords, address, value);
      }
    }

    method Inl(port: bv16) returns (value: bv32)
      requires port == CONFIG_DATA
      ensures value == dwords(address)
    {
      value := dwords(address);
    }

    method ReadB(l: Location) returns (r: bv8)
      modifies this
      ensures Performed(old(dwords), ReadByte(l), dwords, Byte(r)) && dwords == old(dwords)
      ensures l.offset >= 256 ==> r == 0xFF
      ensures Exists(l) ==> r == ByteAt(dwords, l)
    {
      ExistingReads(l);
      hide Address, ByteIn, Lane, Exists, Reached, Left;
      if l.offset >= 256 {
        return 0xFF;
      }
      Outl(CONFIG_ADDRESS, Address(l));
      var data := Inl(CONFIG_DATA);
      r := ByteIn(data, l.offset);
      ReadPerforms(dwords, ReadByte(l));
      AccessReaches(ReadByte(l));
      ByteRead(data, l.offset);
    }

    method ReadW(l: Location) returns (r: bv16)
      modifies this
      ensures Performed(old(dwords), ReadWord(l), dwords, Word(r)) && dwords == old(dwords)
      ensures l.offset >= 256 || l.offset & 1 == 1 ==> r == 0xFFFF
      ensures Exists(l) && l.offset & 1 == 0 ==> r == Little2(ByteAt(dwords, l), ByteAt(dwords, After(l, 1)))
    {
      ExistingReads(l);
      hide Address, WordIn, Little2, ByteAt, After, Exists, Reached, Left;
      if l.offset >= 256 || l.offset & 1 != 0 {
        return 0xFFFF;
      }
      Outl(CONFIG_ADDRESS, Address(l));
      var data := Inl(CONFIG_DATA);
      r := WordIn(data, l.offset);
      ReadPerforms(dwords, ReadWord(l));
      AccessReaches(ReadWord(l));
      WordAnswer(dwords, Reached(l));
    }

    method ReadD(l: Location) returns (r: bv32)
      modifies this
      ensures Performed(old(dwords), ReadDword(l), dwords, Dword(r)) && dwords == old(dwords)
      ensures l.offset >= 256 || l.offset & 3 != 0 ==> r == 0xFFFF_FFFF
      ensures Exists(l) && l.offset & 3 == 0 ==>
        r == Little4(ByteAt(dwords, l), ByteAt(dwords, After(l, 1)), ByteAt(dwords, After(l, 2)),
                     ByteAt(dwords, After(l, 3)))
    {
      ExistingReads(l);
      hide Address, Little4, ByteAt, After, Exists, Reached, Left;
      if l.offset >= 256 || l.offset & 3 != 0 {
        return 0xFFFF_FFFF;
      }
      Outl(CONFIG_ADDRESS, Address(l));
      r := Inl(CONFIG_DATA);
      ReadPerforms(dwords, ReadDword(l));
      AccessReaches(ReadDword(l));
      DwordAnswer(dwords, Reached(l));
    }

    method WriteB(l: Location, v: bv8)
      modifies this
      ensures Performed(old(dwords), WriteByte(l, v), dwords, Nothing)
      ensures l.offset >= 256 ==> dwords == old(dwords)
      ensures Exists(l) ==> ByteAt(dwords, l) == v && KeptExcept(old(dwords), dwords, {l})
    {
      hide Address, ByteMerged, Performed, ByteAt, KeptExcept;
      if l.offset >= 256 {
        RefusedPerforms(dwords, WriteByte(l, v));
        return;
      }
      Outl(CONFIG_ADDRESS, Address(l));
      var data := Inl(CONFIG_DATA);
      data := ByteMerged(data, l.offset, v);
      Outl(CONFIG_DATA, data);
      WritePerforms(old(dwords), WriteByte(l, v), dwords);
      if Exists(l) {
        WroteByte(old(dwords), l, v, dwords);
      }
    }

    method WriteW(l: Location, v: bv16)
      modifies this
      ensures Performed(old(dwords), WriteWord(l, v), dwords, Nothing)
      ensures l.offset >= 256 || l.offset & 1 == 1 ==> dwords == old(dwords)
      ensures Exists(l) && l.offset & 1 == 0 ==>
        && ByteAt(dwords, l) == (v & 0xFF) as bv8 && ByteAt(dwords, After(l, 1)) == (v >> 8) as bv8
        && KeptExcept(old(dwords), dwords, {l, After(l, 1)})
    {
      hide Address, WordMerged, Performed, ByteAt, KeptExcept, After;
      OddOrEven(l.offset);
      if l.offset >= 256 || l.offset & 1 != 0 {
        RefusedPerforms(dwords, WriteWord(l, v));
        return;
      }
      Outl(CONFIG_ADDRESS, Address(l));
      var data := Inl(CONFIG_DATA);
      data := WordMerged(data, l.offset, v);
      Outl(CONFIG_DATA, data);
      WritePerforms(old(dwords), WriteWord(l, v), dwords);
      if Exists(l) {
        WroteWord(old(dwords), l, v, dwords);
      }
    }

    method WriteD(l: Location, v: bv32)
      modifies this
      ensures Performed(old(dwords), WriteDword(l, v), dwords, Nothing)
      ensures l.offset >= 256 || l.offset & 3 != 0 ==> dwords == old(dwords)
      ensures Exists(l) && l.offset & 3 == 0 ==>
        && ByteAt(dwords, l) == (v & 0xFF) as bv8 && ByteAt(dwords, After(l, 1)) == ((v >> 8) & 0xFF) as bv8
        && ByteAt(dwords, After(l, 2)) == ((v >> 16) & 0xFF) as bv8 && ByteAt(dwords, After(l, 3)) == (v >> 24) as bv8
        && KeptExcept(old(dwords), dwords, {l, After(l, 1), After(l, 2), After(l, 3)})
    {
      hide Address, Performed, ByteAt, KeptExcept, After;
      if l.offset >= 256 || l.offset & 3 != 0 {
        RefusedPerforms(dwords, WriteDword(l, v));
        return;
      }
      Outl(CONFIG_ADDRESS, Address(l));
      Outl(CONFIG_DATA, v);
      WritePerforms(old(dwords), WriteDword(l, v), dwords);
      if Exists(l) {
        WroteDword(old(dwords), l, v, dwords);
      }
    }
  }

  lemma OddOrEven(o: bv16)
    ensures o & 1 == 0 || o & 1 == 1
  {
  }

  /** At an existing location a read reaches the location itself. */
  lemma ExistingReads(l: Location)
    ensures Exists(l) ==> Reached(l) == l && l.offset < 256
    ensures l.offset & 1 == 0 || l.offset & 1 == 1
  {
    hide Address, Reached;
    OddOrEven(l.offset);
    if Exists(l) {
      OutsideAliases(l);
    }
  }

  lemma RefusedPerforms(d: Dwords, a: Access)
    requires !Admitted(a)
    ensures Performed(d, a, d, Answer(Bytes(d), a))
  {
  }

  // ---- Whole runs ----

  /** The dwords and a byte space agree on every byte that exists. */
  ghost predicate Agree(dwords: Dwords, space: Space) {
    forall m :: Exists(m) ==> ByteAt(dwords, m) == space(m)
  }

  /** An existing slot and function; the offset may still be out of range or misaligned. */
  predicate Addressed(a: Access) {
    a.at.slot < 32 && a.at.fun < 8
  }

  /** The dwords before, between and after the accesses of a run, with the reply of each. */
  ghost predicate IsRun(states: seq<Dwords>, accesses: seq<Access>, replies: seq<Reply>) {
    |states| == |accesses| + 1 && |replies| == |accesses| &&
    forall i, next :: 0 <= i < |accesses| && next == i + 1 ==>
      Performed(states[i], accesses[i], states[next], replies[i])
  }

  lemma StepRefines(d: Dwords, a: Access, e: Dwords, reply: Reply, space: Space)
    requires Addressed(a) && Performed(d, a, e, reply) && Agree(d, space)
    ensures reply == Answer(space, a) && Agree(e, Update(space, a))
  {
    SameAnswer(d, a, space);
    if Admitted(a) {
      StaysPut(a);
      forall m | Exists(m)
        ensures ByteAt(e, m) == Update(space, a)(m)
      {
        SameLeft(d, a, space, m);
      }
    }
  }

  lemma StaysPut(a: Access)
    requires Addressed(a) && Admitted(a)
    ensures Redirected(a) == a && Exists(a.at)
  {
    hide Address, Reached;
    OutsideAliases(a.at);
  }

  lemma SameLeft(d: Dwords, a: Access, space: Space, m: Location)
    requires Exists(m) && Agree(d, space)
    ensures Left(Bytes(d), a, m) == Left(space, a, m)
  {
    hide Admitted, SameFunction, Covers, WordLane, Lane, Minus, ByteAt, Exists;
    assert ByteAt(d, m) == space(m);
  }

  lemma NextExists(o: bv16)
    requires o < 256
    ensures o & 1 == 0 ==> Plus(o, 1) < 256
    ensures o & 3 == 0 ==> Plus(o, 1) < 256 && Plus(o, 2) < 256 && Plus(o, 3) < 256
  {
  }

  lemma SameAnswer(d: Dwords, a: Access, space: Space)
    requires Addressed(a) && Agree(d, space)
    ensures Answer(Bytes(d), a) == Answer(space, a)
  {
    hide ByteAt, Little2, Little4, Plus;
    if Admitted(a) {
      var l := a.at;
      NextExists(l.offset);
      assert ByteAt(d, l) == space(l);
      assert Exists(After(l, 1)) ==> ByteAt(d, After(l, 1)) == space(After(l, 1));
      assert Exists(After(l, 2)) ==> ByteAt(d, After(l, 2)) == space(After(l, 2));
      assert Exists(After(l, 3)) ==> ByteAt(d, After(l, 3)) == space(After(l, 3));
    }
  }

  /**
   * Every run of the accessors on existing slots and functions answers as the byte space does, and leaves every
   * existing byte as the byte space does.
   */
  lemma {:induction false} RunRefines(states: seq<Dwords>, accesses: seq<Access>, replies: seq<Reply>, space: Space)
    requires IsRun(states, accesses, replies) && Agree(states[0], space)
    requires forall i :: 0 <= i < |accesses| ==> Addressed(accesses[i])
    ensures replies == Answers(space, accesses)
    ensures Agree(states[|accesses|], FinalSpace(space, accesses))
    decreases |accesses|
  {
    hide Performed, Agree, Addressed, Answer, Update;
    if accesses != [] {
      assert Performed(states[0], accesses[0], states[1], replies[0]);
      StepRefines(states[0], accesses[0], states[1], replies[0], space);
      RunRefines(states[1..], accesses[1..], replies[1..], Update(space, accesses[0]));
    }
  }
}
