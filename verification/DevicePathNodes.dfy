/** Device path nodes as packed bytes (gnu-efi/inc/efidevp.h; section 9.3.1 of
    UEFI 2.4).  A path is a list of nodes that ends at the first node that is an
    end of the entire path; end-of-instance nodes split it into instances.
    Memory is the bytes from a path's first byte on, and a pointer into the path
    is an offset into them. */
module DevicePathNodes {
  import opened Common

  const TYPE_MASK_END: int := 0x7F
  const END_DEVICE_PATH_TYPE: Byte := 0x7F
  const END_ENTIRE: Byte := 0xFF
  const END_INSTANCE: Byte := 0x01
  const HEADER := 4

  datatype Node = Node(kind: Byte, sub: Byte, payload: seq<Byte>)

  const END_NODE := Node(END_DEVICE_PATH_TYPE, END_ENTIRE, [])
  const END_INSTANCE_NODE := Node(END_DEVICE_PATH_TYPE, END_INSTANCE, [])

  function Length(n: Node): (k: nat)
    ensures k >= HEADER
  {
    HEADER + |n.payload|
  }

  /** Type & 0x7F == 0x7F; bit 7 marks unpacked nodes. */
  predicate EndKind(kind: Byte) {
    kind as int % 0x80 == TYPE_MASK_END
  }

  predicate IsEndType(n: Node) {
    EndKind(n.kind)
  }

  predicate IsEnd(n: Node) {
    IsEndType(n) && n.sub == END_ENTIRE
  }

  /** The length fits its two bytes. */
  predicate Encodable(n: Node) {
    Length(n) <= 0xFFFF
  }

  /** The length is stored modulo 2^16. */
  function Encode(n: Node): (b: seq<Byte>)
    ensures |b| == Length(n)
  {
    [n.kind, n.sub, (Length(n) % 0x100) as Byte, (Length(n) / 0x100 % 0x100) as Byte] + n.payload
  }

  predicate AllEncodable(ns: seq<Node>) {
    forall i | 0 <= i < |ns| :: Encodable(ns[i])
  }

  function EncodeAll(ns: seq<Node>): (b: seq<Byte>) {
    if ns == [] then [] else Encode(ns[0]) + EncodeAll(ns[1..])
  }

  /** A complete path: end nodes carry no payload and one of the two subtypes,
      and only the last node ends the whole path. */
  predicate WellFormed(ns: seq<Node>) {
    && ns != [] && AllEncodable(ns) && IsEnd(ns[|ns| - 1])
    && (forall i | 0 <= i < |ns| - 1 :: !IsEnd(ns[i]))
    && (forall i | 0 <= i < |ns| && IsEndType(ns[i]) ::
          ns[i].payload == [] && (ns[i].sub == END_ENTIRE || ns[i].sub == END_INSTANCE))
  }

  /** The bytes at offset c start with the path ns. */
  ghost predicate PathAt(mem: seq<Byte>, c: nat, ns: seq<Node>) {
    c <= |mem| && EncodeAll(ns) <= mem[c..]
  }

  lemma EncodeAllCons(n: Node, rest: seq<Node>)
    ensures EncodeAll([n] + rest) == Encode(n) + EncodeAll(rest)
  {
    assert ([n] + rest)[1..] == rest;
  }

  lemma {:induction false} EncodeAllAppend(a: seq<Node>, b: seq<Node>)
    ensures EncodeAll(a + b) == EncodeAll(a) + EncodeAll(b)
  {
    if a == [] {
      assert a + b == b;
    } else {
      var h, t := a[0], a[1..];
      hide EncodeAll, Encode;
      assert a == [h] + t;
      Associative([h], t, b);
      EncodeAllCons(h, t);
      EncodeAllCons(h, t + b);
      EncodeAllAppend(t, b);
      Associative(Encode(h), EncodeAll(t), EncodeAll(b));
    }
  }

  // ---- The header macros ----------------------------------------------------

  function NodeLength(mem: seq<Byte>, c: nat): nat
    requires c + HEADER <= |mem|
  {
    mem[c + 2] as nat + mem[c + 3] as nat * 0x100
  }

  lemma EncodedHeader(n: Node)
    ensures Encode(n)[0] == n.kind && Encode(n)[1] == n.sub
    ensures Encode(n)[2] as nat + Encode(n)[3] as nat * 0x100 == Length(n) % 0x1_0000
    ensures Encode(n)[4..] == n.payload
  {
    TwoBytes(Length(n));
  }

  /** The two end nodes as bytes, and the type bytes that mark an end: 0x7F packed and 0xFF unpacked. */
  lemma EndNodes(kind: Byte)
    ensures Encode(END_NODE) == [0x7F, 0xFF, 4, 0] && Encode(END_INSTANCE_NODE) == [0x7F, 0x01, 4, 0]
    ensures EndKind(kind) <==> kind == 0x7F || kind == 0xFF
  {}

  lemma TwoBytes(k: nat)
    ensures k % 0x100 + k / 0x100 % 0x100 * 0x100 == k % 0x1_0000
  {
    var high, low := k / 0x100, k % 0x100;
    var top := high / 0x100;
    assert k == high * 0x100 + low && high == top * 0x100 + high % 0x100;
    assert k == top * 0x1_0000 + (high % 0x100 * 0x100 + low);
  }

  /** Reading the first node of a path, and stepping over it. */
  lemma NodeAt(mem: seq<Byte>, c: nat, ns: seq<Node>)
    requires PathAt(mem, c, ns) && ns != [] && Encodable(ns[0])
    ensures c + HEADER <= |mem| && mem[c] == ns[0].kind && mem[c + 1] == ns[0].sub
    ensures NodeLength(mem, c) == Length(ns[0])
    ensures PathAt(mem, c + Length(ns[0]), ns[1..])
  {
    var e, k := Encode(ns[0]), Length(ns[0]);
    EncodedHeader(ns[0]);
    assert EncodeAll(ns) == e + EncodeAll(ns[1..]);
    assert forall i | 0 <= i < k :: mem[c..][i] == EncodeAll(ns)[i] == e[i];
    assert mem[c] == mem[c..][0] && mem[c + 1] == mem[c..][1];
    assert mem[c + 2] == mem[c..][2] && mem[c + 3] == mem[c..][3];
    assert mem[c + k..] == mem[c..][k..];
  }

  /** Bytes consumed by the first k nodes. */
  function SizeOf(ns: seq<Node>): nat {
    if ns == [] then 0 else Length(ns[0]) + SizeOf(ns[1..])
  }

  lemma {:induction false} SizeOfAppend(a: seq<Node>, b: seq<Node>)
    ensures SizeOf(a + b) == SizeOf(a) + SizeOf(b)
  {
    if a == [] {
      assert a + b == b;
    } else {
      SizeOfAppend(a[1..], b);
      assert (a + b)[1..] == a[1..] + b;
    }
  }

  lemma {:induction false} SizeOfEncoding(ns: seq<Node>)
    ensures |EncodeAll(ns)| == SizeOf(ns)
  {
    if ns != [] {
      SizeOfEncoding(ns[1..]);
    }
  }

  lemma SingleNode(n: Node)
    ensures EncodeAll([n]) == Encode(n) && SizeOf([n]) == Length(n)
  {
    assert [n][1..] == [];
    assert Encode(n) + [] == Encode(n);
  }

  lemma LastNode(a: seq<Node>, z: Node)
    ensures EncodeAll(a + [z]) == EncodeAll(a) + Encode(z)
    ensures SizeOf(a + [z]) == SizeOf(a) + Length(z)
  {
    SingleNode(z);
    EncodeAllAppend(a, [z]);
    SizeOfAppend(a, [z]);
  }

  lemma SplitLast(ns: seq<Node>)
    requires ns != []
    ensures EncodeAll(ns) == EncodeAll(ns[..|ns| - 1]) + Encode(ns[|ns| - 1])
    ensures SizeOf(ns) == SizeOf(ns[..|ns| - 1]) + Length(ns[|ns| - 1])
  {
    hide *;
    SplitEnd(ns);
    LastNode(ns[..|ns| - 1], ns[|ns| - 1]);
  }

  lemma SplitEnd(ns: seq<Node>)
    requires ns != []
    ensures ns == ns[..|ns| - 1] + [ns[|ns| - 1]]
  {}

  lemma SplitNode(ns: seq<Node>, k: nat)
    requires k < |ns|
    ensures ns == ns[..k] + [ns[k]] + ns[k + 1..]
  {}

  /** One more node of the walk: the cursor moves by its length. */
  lemma WalkStep(mem: seq<Byte>, c: nat, ns: seq<Node>, k: nat)
    requires k < |ns| && PathAt(mem, c, ns[k..]) && Encodable(ns[k])
    ensures c + HEADER <= |mem| && mem[c] == ns[k].kind && mem[c + 1] == ns[k].sub
    ensures NodeLength(mem, c) == Length(ns[k])
    ensures PathAt(mem, c + Length(ns[k]), ns[k + 1..])
    ensures SizeOf(ns[..k + 1]) == SizeOf(ns[..k]) + Length(ns[k])
  {
    assert ns[k..][0] == ns[k];
    NodeAt(mem, c, ns[k..]);
    SingleNode(ns[k]);
    hide EncodeAll, Encode, SizeOf, NodeLength;
    assert ns[k..][1..] == ns[k + 1..];
    assert ns[..k + 1] == ns[..k] + [ns[k]];
    SizeOfAppend(ns[..k], [ns[k]]);
  }
}
