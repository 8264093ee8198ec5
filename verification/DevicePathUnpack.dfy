/** UnpackDevicePath of gnu-efi/lib/dpath.c: every node is padded with zeros to a
    multiple of four bytes (MIN_ALIGNMENT_SIZE on x86_64) and marked unpacked. */
module DevicePathUnpack {
  import opened Common
  import opened DevicePathNodes
  import opened DevicePathWalk

  const ALIGNMENT := 4

  /** ALIGN_SIZE: what is missing to the next multiple of four. */
  function Padding(size: nat): nat {
    if size % ALIGNMENT != 0 then ALIGNMENT - size % ALIGNMENT else 0
  }

  function ZeroBytes(n: nat): (z: seq<Byte>)
    ensures |z| == n
  {
    seq(n, _ => 0)
  }

  /** Type | 0x80 */
  function MarkUnpacked(kind: Byte): Byte {
    if kind < 0x80 then kind + 0x80 else kind
  }

  function Unpacked(n: Node): Node {
    Node(MarkUnpacked(n.kind), n.sub, n.payload + ZeroBytes(Padding(Length(n))))
  }

  function UnpackedAll(ns: seq<Node>): (ms: seq<Node>)
    ensures |ms| == |ns|
  {
    seq(|ns|, i requires 0 <= i < |ns| => Unpacked(ns[i]))
  }

  // ---- What unpacking keeps -------------------------------------------------

  /** The masked type, the subtype and the payload up to padding survive; the
      length becomes a multiple of four; a second unpacking changes nothing. */
  lemma UnpackedNode(n: Node)
    ensures EndKind(Unpacked(n).kind) == EndKind(n.kind) && Unpacked(n).kind as int % 0x80 == n.kind as int % 0x80
    ensures Unpacked(n).kind >= 0x80 && Unpacked(n).sub == n.sub
    ensures n.payload <= Unpacked(n).payload
    ensures forall i | |n.payload| <= i < |Unpacked(n).payload| :: Unpacked(n).payload[i] == 0
    ensures Length(Unpacked(n)) % 4 == 0 && Length(n) <= Length(Unpacked(n)) < Length(n) + 4
    ensures Unpacked(Unpacked(n)) == Unpacked(n)
  {
    var m := Unpacked(n);
    PaddedLength(Length(n));
    assert Padding(Length(m)) == 0;
    assert m.payload + ZeroBytes(0) == m.payload;
  }

  lemma PaddedLength(k: nat)
    ensures (k + Padding(k)) % ALIGNMENT == 0 && Padding(k) < ALIGNMENT
  {}

  lemma UnpackedFixed(ns: seq<Node>)
    ensures UnpackedAll(UnpackedAll(ns)) == UnpackedAll(ns)
  {
    forall i | 0 <= i < |ns|
      ensures UnpackedAll(UnpackedAll(ns))[i] == UnpackedAll(ns)[i]
    {
      UnpackedNode(ns[i]);
    }
  }

  /** The longest node whose padded length still fits its two bytes. */
  const MAX_LENGTH := 0x1_0000 - ALIGNMENT

  lemma LengthLimit(n: Node)
    requires Encodable(n)
    ensures Encodable(Unpacked(n)) <==> Length(n) <= 65532 == MAX_LENGTH
    ensures !Encodable(Unpacked(n)) ==> Length(Unpacked(n)) == 0x1_0000
  {
    UnpackedNode(n);
  }

  ghost predicate AllShort(ns: seq<Node>) {
    forall i | 0 <= i < |ns| :: Length(ns[i]) <= MAX_LENGTH
  }

  lemma UnpackedWellFormed(ns: seq<Node>)
    requires WellFormed(ns) && AllShort(ns)
    ensures WellFormed(UnpackedAll(ns))
  {
    var ms := UnpackedAll(ns);
    forall i | 0 <= i < |ns|
      ensures Encodable(ms[i]) && IsEnd(ms[i]) == IsEnd(ns[i]) && IsEndType(ms[i]) == IsEndType(ns[i])
      ensures IsEndType(ns[i]) ==> ms[i].payload == [] && ms[i].sub == ns[i].sub
    {
      UnpackedEndType(ns, i);
    }
  }

  lemma UnpackedEndType(ns: seq<Node>, i: nat)
    requires WellFormed(ns) && AllShort(ns) && i < |ns|
    ensures var m := Unpacked(ns[i]);
            Encodable(m) && IsEnd(m) == IsEnd(ns[i]) && IsEndType(m) == IsEndType(ns[i])
            && m.sub == ns[i].sub && (IsEndType(m) ==> m.payload == [])
  {
    UnpackedNode(ns[i]);
    LengthLimit(ns[i]);
  }

  /** The result of unpacking can be unpacked again, and that gives the same bytes. */
  lemma UnpackTwice(ns: seq<Node>)
    requires WellFormed(ns) && AllShort(ns)
    ensures WellFormed(UnpackedAll(ns)) && AllShort(UnpackedAll(ns))
    ensures PathAt(EncodeAll(UnpackedAll(ns)), 0, UnpackedAll(ns))
    ensures EncodeAll(UnpackedAll(UnpackedAll(ns))) == EncodeAll(UnpackedAll(ns))
  {
    hide WellFormed, EncodeAll, UnpackedAll, Unpacked;
    UnpackedWellFormed(ns);
    UnpackedFixed(ns);
    var ms := UnpackedAll(ns);
    WellFormedEncodable(ms);
    forall i | 0 <= i < |ms|
      ensures Length(ms[i]) <= MAX_LENGTH
    {
      UnpackedAt(ns, i);
      UnpackedNode(ns[i]);
      assert Encodable(ms[i]);
    }
    assert EncodeAll(ms)[0..] == EncodeAll(ms);
  }

  /** Unpacking goes instance by instance. */
  lemma {:induction false} UnpackedInstances(ns: seq<Node>)
    requires WellFormed(ns) && AllShort(ns)
    ensures |Instances(UnpackedAll(ns))| == |Instances(ns)|
    ensures forall i | 0 <= i < |Instances(ns)| :: Instances(UnpackedAll(ns))[i] == UnpackedAll(Instances(ns)[i])
    decreases |ns|
  {
    hide *;
    FirstSplit(ns);
    var k := FirstEnd(ns);
    var a, e, rest := ns[..k], ns[k], ns[k + 1..];
    UnpackedParts(ns, k);
    InstancesCons(a, e, rest);
    InstancesCons(UnpackedAll(a), Unpacked(e), UnpackedAll(rest));
    if rest != [] {
      UnpackedInstances(rest);
    }
  }

  lemma UnpackedParts(ns: seq<Node>, k: nat)
    requires k < |ns| && NoEnds(ns[..k]) && IsEndType(ns[k]) && AllShort(ns)
    ensures NoEnds(UnpackedAll(ns[..k])) && IsEndType(Unpacked(ns[k])) && AllShort(ns[k + 1..])
    ensures UnpackedAll(ns) == UnpackedAll(ns[..k]) + [Unpacked(ns[k])] + UnpackedAll(ns[k + 1..])
    ensures ns[k + 1..] == [] ==> Instances(ns[k + 1..]) == [] && Instances(UnpackedAll(ns[k + 1..])) == []
  {
    UnpackedNode(ns[k]);
    UnpackedNoEnds(ns[..k]);
  }

  lemma UnpackedNoEnds(ns: seq<Node>)
    requires NoEnds(ns)
    ensures NoEnds(UnpackedAll(ns))
  {
    forall i | 0 <= i < |ns|
      ensures !IsEndType(UnpackedAll(ns)[i])
    {
      UnpackedNode(ns[i]);
    }
  }

  // ---- The two passes -------------------------------------------------------

  /** The source cursor stands at node k. */
  ghost predicate Reading(mem: seq<Byte>, src: nat, ns: seq<Node>, k: nat) {
    k <= |ns| && PathAt(mem, src, ns[k..])
  }

  lemma ReadNode(mem: seq<Byte>, src: nat, ns: seq<Node>, k: nat)
    requires WellFormed(ns) && k < |ns| && Reading(mem, src, ns, k)
    ensures src + HEADER <= |mem| && NodeLength(mem, src) == Length(ns[k])
    ensures (EndKind(mem[src]) && mem[src + 1] == END_ENTIRE) <==> k == |ns| - 1
    ensures Encode(ns[k]) <= mem[src..]
    ensures Reading(mem, src + Length(ns[k]), ns, k + 1)
  {
    OnlyLastEnds(ns, k);
    WalkStep(mem, src, ns, k);
    assert EncodeAll(ns[k..]) == Encode(ns[k]) + EncodeAll(ns[k..][1..]);
  }

  /** The bytes of the first k nodes unpacked. */
  function UnpackedBytes(ns: seq<Node>, k: nat): seq<Byte>
    requires k <= |ns|
  {
    EncodeAll(UnpackedAll(ns)[..k])
  }

  lemma UnpackedBytesStep(ns: seq<Node>, k: nat)
    requires k < |ns|
    ensures UnpackedBytes(ns, k + 1) == UnpackedBytes(ns, k) + Encode(Unpacked(ns[k]))
    ensures |UnpackedBytes(ns, k + 1)| <= |UnpackedBytes(ns, |ns|)|
  {
    var ms := UnpackedAll(ns);
    hide UnpackedAll, EncodeAll, Encode;
    assert ms[k] == Unpacked(ns[k]) by { UnpackedAt(ns, k); }
    assert ms[..k + 1] == ms[..k] + [ms[k]];
    LastNode(ms[..k], ms[k]);
    assert ms[..|ns|] == ms[..k + 1] + ms[k + 1..];
    EncodeAllAppend(ms[..k + 1], ms[k + 1..]);
  }

  lemma UnpackedAt(ns: seq<Node>, k: nat)
    requires k < |ns|
    ensures UnpackedAll(ns)[k] == Unpacked(ns[k])
  {}

  lemma UnpackedBytesEnds(ns: seq<Node>)
    ensures UnpackedBytes(ns, 0) == [] && UnpackedBytes(ns, |ns|) == EncodeAll(UnpackedAll(ns))
  {
    assert UnpackedAll(ns)[..|ns|] == UnpackedAll(ns);
  }

  /** On a rounded total, rounding the new total is rounding the new node. */
  lemma RoundedTotal(total: nat, k: nat)
    requires total % ALIGNMENT == 0
    ensures Padding(total + k) == Padding(k) && (total + k + Padding(k)) % ALIGNMENT == 0
  {}

  lemma ReadStart(mem: seq<Byte>, ns: seq<Node>)
    requires WellFormed(ns) && PathAt(mem, 0, ns)
    ensures ns != [] && Reading(mem, 0, ns, 0)
  {
    assert ns[0..] == ns;
  }

  /** A rounded total of the first k nodes, with node k added and rounded again, is that of the first k + 1. */
  lemma RoundedStep(ns: seq<Node>, k: nat)
    requires k < |ns| && |UnpackedBytes(ns, k)| % ALIGNMENT == 0
    ensures var total := |UnpackedBytes(ns, k)| + Length(ns[k]);
      |UnpackedBytes(ns, k + 1)| == total + Padding(total) && |UnpackedBytes(ns, k + 1)| % ALIGNMENT == 0
  {
    hide UnpackedBytes, Padding, Encode;
    UnpackedBytesStep(ns, k);
    RoundedTotal(|UnpackedBytes(ns, k)|, Length(ns[k]));
  }

  /** Pass 1: the total is rounded after every node, which rounds each node. */
  method UnpackedSize(mem: seq<Byte>, ghost ns: seq<Node>) returns (size: nat)
    requires WellFormed(ns) && PathAt(mem, 0, ns)
    ensures size == |EncodeAll(UnpackedAll(ns))|
  {
    hide WellFormed, Reading, NodeLength, UnpackedBytes, Padding, Encode, EncodeAll, UnpackedAll, EndKind, PathAt;
    size := 0;
    var src: nat := 0;
    ghost var k := 0;
    UnpackedBytesEnds(ns);
    ReadStart(mem, ns);
    while true
      invariant 0 <= k < |ns| && Reading(mem, src, ns, k)
      invariant size == |UnpackedBytes(ns, k)| && size % ALIGNMENT == 0
      decreases |ns| - k
    {
      ReadNode(mem, src, ns, k);
      RoundedStep(ns, k);
      size := size + NodeLength(mem, src);
      size := size + Padding(size);
      if EndKind(mem[src]) && mem[src + 1] == END_ENTIRE {
        break;
      }
      src, k := src + NodeLength(mem, src), k + 1;
    }
  }

  /** The body of pass 2: copy a node, round its length, mark it unpacked.  The
      padding is there already, because the buffer starts as zeros. */
  method UnpackNode(dst: array<Byte>, dest: nat, mem: seq<Byte>, src: nat, ghost n: Node) returns (next: nat)
    requires src + HEADER <= |mem| && NodeLength(mem, src) == Length(n)
    requires Encode(n) <= mem[src..] && dest + Length(Unpacked(n)) <= dst.Length
    requires forall i | dest <= i < dst.Length :: dst[i] == 0
    modifies dst
    ensures next == dest + Length(Unpacked(n))
    ensures dst[..next] == old(dst[..dest]) + Encode(Unpacked(n))
    ensures forall i | next <= i < dst.Length :: dst[i] == 0
  {
    hide Encode, Padding, NodeLength, MarkUnpacked;
    ghost var before, zeros := dst[..dest], dst[dest + Length(n)..];
    var size := NodeLength(mem, src);
    assert mem[src..src + size] == mem[src..][..size] == Encode(n);
    CopyMem(dst, dest, mem, src, size);
    size := size + Padding(size);
    ghost var copied := dst[..];
    dst[dest + 2] := (size % 0x100) as Byte;
    dst[dest + 3] := (size / 0x100 % 0x100) as Byte;
    dst[dest] := MarkUnpacked(dst[dest]);
    next := dest + size;
    PatchedNode(copied, dst[..], before, n, zeros);
  }

  lemma EncodeAt(n: Node, i: nat)
    requires HEADER <= i < Length(n)
    ensures Encode(n)[i] == n.payload[i - HEADER]
  {}

  /** The three rewritten bytes turn a copied node into the unpacked one. */
  lemma PatchedNode(copied: seq<Byte>, b: seq<Byte>, before: seq<Byte>, n: Node, zeros: seq<Byte>)
    requires copied == before + Encode(n) + zeros && |zeros| >= Padding(Length(n))
    requires forall i | 0 <= i < |zeros| :: zeros[i] == 0
    requires var d, size := |before|, Length(Unpacked(n));
      b == copied[d + 2 := (size % 0x100) as Byte]
                 [d + 3 := (size / 0x100 % 0x100) as Byte]
                 [d := MarkUnpacked(copied[d])]
    ensures var next := |before| + Length(Unpacked(n));
      && next <= |b| && b[..next] == before + Encode(Unpacked(n))
      && forall i | next <= i < |b| :: b[i] == 0
  {
    var d, m := |before|, Unpacked(n);
    var e := Encode(m);
    EncodedHeader(n);
    forall i | 0 <= i < |e|
      ensures b[d + i] == e[i]
    {
      if i >= HEADER {
        EncodeAt(m, i);
        if i < Length(n) {
          EncodeAt(n, i);
        }
      }
    }
    assert b[..d] == before && b[..d + |e|] == b[..d] + b[d..d + |e|];
  }

  /** Pass 2 fills the allocation of pass 1 exactly.  A padded length of 65536
      is stored as zero. */
  method UnpackDevicePath(mem: seq<Byte>, ghost ns: seq<Node>, pool: bool) returns (newPath: array?<Byte>)
    requires WellFormed(ns) && PathAt(mem, 0, ns)
    ensures newPath != null <==> pool
    ensures newPath != null ==> fresh(newPath) && newPath[..] == EncodeAll(UnpackedAll(ns))
  {
    hide WellFormed, Reading, NodeLength, UnpackedBytes, Encode, EncodeAll, UnpackedAll, Unpacked, EndKind, PathAt;
    var size := UnpackedSize(mem, ns);
    if !pool {
      return null;
    }
    newPath := new Byte[size](_ => 0);
    var src: nat, dest: nat := 0, 0;
    ghost var k := 0;
    UnpackedBytesEnds(ns);
    ReadStart(mem, ns);
    while true
      invariant 0 <= k < |ns| && Reading(mem, src, ns, k)
      invariant dest <= newPath.Length && newPath[..dest] == UnpackedBytes(ns, k)
      invariant forall i | dest <= i < newPath.Length :: newPath[i] == 0
      decreases |ns| - k
    {
      ReadNode(mem, src, ns, k);
      UnpackedBytesStep(ns, k);
      dest := UnpackNode(newPath, dest, mem, src, ns[k]);
      if EndKind(mem[src]) && mem[src + 1] == END_ENTIRE {
        break;
      }
      src, k := src + NodeLength(mem, src), k + 1;
    }
    assert newPath[..dest] == newPath[..];
  }

  // ---- When the result is a path --------------------------------------------

  lemma HeadsAgree(m: Node, n: Node, x: seq<Byte>, y: seq<Byte>)
    requires Encodable(m) && Encodable(n) && Encode(m) + x <= Encode(Unpacked(n)) + y
    ensures Length(n) <= MAX_LENGTH && Length(m) == Length(Unpacked(n))
    ensures m.kind == Unpacked(n).kind && m.sub == n.sub
    ensures x <= y
  {
    hide Encode, Unpacked;
    var u := Unpacked(n);
    UnpackedNode(n);
    EncodedHeader(m);
    EncodedHeader(u);
    LengthLimit(n);
    SameHeader(Encode(m), x, Encode(u), y);
    SameTail(Encode(m), x, Encode(u), y);
  }

  lemma SameHeader(e: seq<Byte>, x: seq<Byte>, f: seq<Byte>, y: seq<Byte>)
    requires |e| >= HEADER && |f| >= HEADER && e + x <= f + y
    ensures e[0] == f[0] && e[1] == f[1] && e[2] == f[2] && e[3] == f[3]
  {
    var s, t := e + x, f + y;
    assert s[0] == t[0] && s[1] == t[1] && s[2] == t[2] && s[3] == t[3];
  }

  lemma SameTail(e: seq<Byte>, x: seq<Byte>, f: seq<Byte>, y: seq<Byte>)
    requires e + x <= f + y
    ensures |e| == |f| ==> x <= y
  {
    if |e| == |f| {
      assert (e + x)[|e|..] == x && (f + y)[|f|..] == y;
    }
  }

  /** Any complete path found in the result forces every node to be short. */
  lemma {:induction false} ReadableIsShort(ns: seq<Node>, ms: seq<Node>)
    requires WellFormed(ns) && WellFormed(ms)
    requires EncodeAll(ms) <= EncodeAll(UnpackedAll(ns))
    ensures AllShort(ns)
    decreases |ns|
  {
    var n, m := ns[0], ms[0];
    assert UnpackedAll(ns)[1..] == UnpackedAll(ns[1..]);
    HeadsAgree(m, n, EncodeAll(ms[1..]), EncodeAll(UnpackedAll(ns[1..])));
    UnpackedNode(n);
    OnlyLastEnds(ns, 0);
    OnlyLastEnds(ms, 0);
    if |ns| > 1 {
      WellFormedRest(ns, 0);
      WellFormedRest(ms, 0);
      ReadableIsShort(ns[1..], ms[1..]);
      assert forall i | 1 <= i < |ns| :: ns[i] == ns[1..][i - 1];
    }
  }

  /** The unpacked bytes hold a complete path exactly when no node is longer than
      65532 bytes; a longer one is left with a length of zero. */
  lemma UnpackedReadable(ns: seq<Node>)
    requires WellFormed(ns)
    ensures (exists ms :: WellFormed(ms) && PathAt(EncodeAll(UnpackedAll(ns)), 0, ms)) <==> AllShort(ns)
  {
    var b := EncodeAll(UnpackedAll(ns));
    assert b[0..] == b;
    if AllShort(ns) {
      UnpackedWellFormed(ns);
      assert PathAt(b, 0, UnpackedAll(ns));
    }
    if ms :| WellFormed(ms) && PathAt(b, 0, ms) {
      ReadableIsShort(ns, ms);
    }
  }

  /** A node of 65535 bytes: no complete path can be read from the result. */
  lemma LongNodeUnreadable()
    ensures var ns := [Node(1, 1, ZeroBytes(0xFFFB)), END_NODE];
      WellFormed(ns) && !exists ms :: WellFormed(ms) && PathAt(EncodeAll(UnpackedAll(ns)), 0, ms)
  {
    var ns := [Node(1, 1, ZeroBytes(0xFFFB)), END_NODE];
    assert Length(ns[0]) == 0xFFFF && WellFormed(ns);
    assert !AllShort(ns);
    hide WellFormed, PathAt, EncodeAll, UnpackedAll;
    UnpackedReadable(ns);
  }
}
