/** AppendDevicePathInstance, AppendDevicePath and AppendDevicePathNode of
    gnu-efi/lib/dpath.c. */
module DevicePathAppend {
  import opened Common
  import opened DevicePathNodes
  import opened DevicePathWalk

  // ---- Appending an instance ------------------------------------------------

  /** a with its final end turned into an end of instance, then b. */
  function WithInstance(a: seq<Node>, b: seq<Node>): seq<Node>
    requires a != []
  {
    a[..|a| - 1] + [a[|a| - 1].(sub := END_INSTANCE)] + b
  }

  lemma WithInstanceWellFormed(a: seq<Node>, b: seq<Node>)
    requires WellFormed(a) && WellFormed(b)
    ensures WellFormed(WithInstance(a, b))
  {
    var c, n := WithInstance(a, b), |a|;
    assert forall i | 0 <= i < |c| ::
      c[i] == if i < n - 1 then a[i] else if i == n - 1 then a[n - 1].(sub := END_INSTANCE) else b[i - n];
  }

  lemma {:induction false} InstancesAppend(a: seq<Node>, b: seq<Node>)
    requires WellFormed(a) && WellFormed(b)
    ensures Instances(WithInstance(a, b)) == Instances(a) + Instances(b)
    decreases |a|
  {
    FirstSplit(a);
    var k := FirstEnd(a);
    var first, e, rest := a[..k], a[k], a[k + 1..];
    var relinked := e.(sub := END_INSTANCE);
    assert IsEndType(relinked) && Instances([]) == [];
    hide WellFormed, FirstEnd, Instances, NoEnds, IsEndType;
    InstancesCons(first, e, rest);
    if rest == [] {
      assert WithInstance(a, b) == first + [relinked] + b;
      InstancesCons(first, relinked, b);
    } else {
      InstancesAppend(rest, b);
      WithInstanceRest(a, b, k);
      InstancesCons(first, e, WithInstance(rest, b));
      Associative([first], Instances(rest), Instances(b));
    }
  }

  lemma WithInstanceRest(a: seq<Node>, b: seq<Node>, k: nat)
    requires k < |a| - 1
    ensures WithInstance(a, b) == a[..k] + [a[k]] + WithInstance(a[k + 1..], b)
  {
    assert a[..|a| - 1] == a[..k] + [a[k]] + a[k + 1..][..|a| - k - 2];
  }

  lemma WithInstanceAssociative(a: seq<Node>, b: seq<Node>, c: seq<Node>)
    requires WellFormed(a) && WellFormed(b) && WellFormed(c)
    ensures WellFormed(WithInstance(a, b))
    ensures WithInstance(WithInstance(a, b), c) == WithInstance(a, WithInstance(b, c))
  {
    WithInstanceWellFormed(a, b);
    var d := WithInstance(a, b);
    assert d[|d| - 1] == b[|b| - 1];
    assert d[..|d| - 1] == a[..|a| - 1] + [a[|a| - 1].(sub := END_INSTANCE)] + b[..|b| - 1];
  }

  lemma WithInstanceBytes(a: seq<Node>, b: seq<Node>)
    requires WellFormed(a) && WellFormed(b)
    ensures AllEncodable(WithInstance(a, b))
    ensures EncodeAll(WithInstance(a, b))
         == EncodeAll(a[..|a| - 1]) + [a[|a| - 1].kind, END_INSTANCE, HEADER as Byte, 0] + EncodeAll(b)
  {
    WithInstanceWellFormed(a, b);
    var s, z := a[..|a| - 1], a[|a| - 1].(sub := END_INSTANCE);
    EndBytes(z);
    LastNode(s, z);
    EncodeAllAppend(s + [z], b);
  }

  lemma EndBytes(z: Node)
    requires z.payload == []
    ensures Encodable(z) && Encode(z) == [z.kind, z.sub, HEADER as Byte, 0]
  {}

  lemma LastBytes(a: seq<Node>)
    requires WellFormed(a)
    ensures a != [] && |EncodeAll(a[..|a| - 1])| == SizeOf(a[..|a| - 1])
    ensures EncodeAll(a) == EncodeAll(a[..|a| - 1]) + [a[|a| - 1].kind, END_ENTIRE, HEADER as Byte, 0]
  {
    EndSplit(a);
    EndBytes(a[|a| - 1]);
    SizeOfEncoding(a[..|a| - 1]);
  }

  /** pool says whether the allocation has room; with a source, the function asserts that it has. */
  method AppendDevicePathInstance(src: Path, instance: seq<Byte>, ghost a: seq<Node>, ghost b: seq<Node>, pool: bool)
      returns (ptr: array?<Byte>)
    requires src.Path? ==> WellFormed(a) && PathAt(src.mem, 0, a) && pool
    requires WellFormed(b) && PathAt(instance, 0, b)
    ensures ptr != null <==> pool
    ensures ptr != null ==> fresh(ptr)
    ensures ptr != null && src.NoPath? ==> ptr[..] == EncodeAll(b)
    ensures ptr != null && src.Path? ==>
            WellFormed(WithInstance(a, b)) && ptr[..] == EncodeAll(WithInstance(a, b))
  {
    if src.NoPath? {
      ptr := DuplicateDevicePath(instance, 0, b, pool);
      return;
    }
    hide EncodeAll, SizeOf, WellFormed, WithInstance;
    var srcSize := DevicePathSize(src.mem, 0, a);
    var instanceSize := DevicePathSize(instance, 0, b);
    var block := CopyOf(src.mem, srcSize, instanceSize);
    LastBytes(a);
    CopiedPath(block[..], a);
    var devPath := FindEnd(block[..], 0, a);
    Relink(block, devPath, instance, instanceSize, EncodeAll(a[..|a| - 1]), a[|a| - 1].kind);
    WithInstanceBytes(a, b);
    WithInstanceWellFormed(a, b);
    ptr := block;
  }

  /** A new block that starts with the first size bytes of src and has extra bytes behind them. */
  method CopyOf(src: seq<Byte>, size: nat, extra: nat) returns (block: array<Byte>)
    requires size <= |src|
    ensures fresh(block) && block.Length == size + extra && block[..][..size] == block[..size] == src[0..size]
  {
    block := new Byte[size + extra];
    CopyMem(block, 0, src, 0, size);
    assert block[..size] == block[..][..size];
  }

  /** Turn the end node at devPath into an end of instance; copy after it. */
  method Relink(ptr: array<Byte>, devPath: nat, instance: seq<Byte>, size: nat, ghost e: seq<Byte>, ghost kind: Byte)
    requires devPath == |e| && ptr.Length == |e| + HEADER + size && size <= |instance|
    requires ptr[..|e| + HEADER] == e + [kind, END_ENTIRE, HEADER as Byte, 0]
    modifies ptr
    ensures ptr[..] == e + [kind, END_INSTANCE, HEADER as Byte, 0] + instance[..size]
  {
    PatchEnd(ptr[..], e, kind);
    ptr[devPath + 1] := END_INSTANCE;
    var next := devPath + NodeLength(ptr[..], devPath);
    CopyMem(ptr, next, instance, 0, size);
  }

  lemma CopiedPath(mem: seq<Byte>, ns: seq<Node>)
    requires |EncodeAll(ns)| <= |mem| && mem[..|EncodeAll(ns)|] == EncodeAll(ns)
    ensures PathAt(mem, 0, ns)
  {
    assert mem[0..] == mem;
  }

  /** Rewriting the subtype of the end node leaves its length at four. */
  lemma PatchEnd(p: seq<Byte>, e: seq<Byte>, kind: Byte)
    requires |e| + HEADER <= |p| && p[..|e| + HEADER] == e + [kind, END_ENTIRE, HEADER as Byte, 0]
    ensures p[|e| + 1 := END_INSTANCE][..|e| + HEADER] == e + [kind, END_INSTANCE, HEADER as Byte, 0]
    ensures NodeLength(p[|e| + 1 := END_INSTANCE], |e|) == HEADER
  {
    var q, r := p[|e| + 1 := END_INSTANCE], e + [kind, END_INSTANCE, HEADER as Byte, 0];
    forall i | 0 <= i < |r|
      ensures q[i] == r[i]
    {
      assert p[i] == p[..|e| + HEADER][i] == (e + [kind, END_ENTIRE, HEADER as Byte, 0])[i];
    }
  }

  // ---- Appending a path -----------------------------------------------------

  const END_BYTES: seq<Byte> := [END_DEVICE_PATH_TYPE, END_ENTIRE, HEADER as Byte, 0]
  const END_INSTANCE_BYTES: seq<Byte> := [END_DEVICE_PATH_TYPE, END_INSTANCE, HEADER as Byte, 0]

  /** What the copy loop writes: each instance, all of Src2, an end of instance. */
  function Pasted(insts: seq<seq<Node>>, tail: seq<Byte>): (p: seq<Byte>)
    ensures |p| >= HEADER * |insts|
  {
    if insts == [] then []
    else EncodeAll(insts[0]) + tail + END_INSTANCE_BYTES + Pasted(insts[1..], tail)
  }

  /** The size the function allocates. */
  function Allocated(size1: nat, count: nat, size2: nat): nat {
    size1 * count + size2
  }

  method AppendDevicePath(src1: Path, src2: Path, ghost a: seq<Node>, ghost b: seq<Node>, pool: bool)
      returns (dst: array?<Byte>)
    requires src1.Path? || src2.Path?
    requires src1.Path? ==> WellFormed(a) && PathAt(src1.mem, 0, a)
    requires src2.Path? ==> WellFormed(b) && PathAt(src2.mem, 0, b)
    requires src1.Path? && src2.Path? ==>
      |Pasted(Walked(a), EncodeAll(b))| <= Allocated(|EncodeAll(a)|, |Walked(a)|, |EncodeAll(b)|)
    ensures dst != null <==> pool
    ensures dst != null ==> fresh(dst)
    ensures dst != null && src1.NoPath? ==> dst[..] == EncodeAll(b)
    ensures dst != null && src2.NoPath? ==> dst[..] == EncodeAll(a)
    ensures dst != null && src1.Path? && src2.Path? ==>
      && dst.Length == Allocated(|EncodeAll(a)|, |Walked(a)|, |EncodeAll(b)|)
      && var p := Pasted(Walked(a), EncodeAll(b));
         HEADER <= |p| <= dst.Length && dst[..|p|] == p[..|p| - HEADER] + END_BYTES
  {
    if src1.NoPath? {
      dst := DuplicateDevicePath(src2.mem, 0, b, pool);
      return;
    }
    if src2.NoPath? {
      dst := DuplicateDevicePath(src1.mem, 0, a, pool);
      return;
    }
    var src1Size := DevicePathSize(src1.mem, 0, a);
    var src1Inst := DevicePathInstanceCount(src1.mem, At(0), a);
    var src2Size := DevicePathSize(src2.mem, 0, b);
    var size := src1Size * src1Inst + src2Size;
    if !pool {
      return null;
    }
    dst := new Byte[size];
    ghost var e2 := EncodeAll(b);
    var dstPos := PasteInstances(dst, src1.mem, src2.mem, src2Size, a, e2);
    dstPos := dstPos - HEADER;
    CopyMem(dst, dstPos, END_BYTES, 0, HEADER);
  }

  /** The loop over the instances of Src1. */
  method PasteInstances(dst: array<Byte>, src1: seq<Byte>, src2: seq<Byte>, src2Size: nat,
                        ghost a: seq<Node>, ghost e2: seq<Byte>)
      returns (dstPos: nat)
    requires WellFormed(a) && PathAt(src1, 0, a)
    requires src2Size <= |src2| && src2[..src2Size] == e2
    requires |Pasted(Walked(a), e2)| <= dst.Length
    modifies dst
    ensures dstPos == |Pasted(Walked(a), e2)| >= HEADER
    ensures dst[..dstPos] == Pasted(Walked(a), e2)
  {
    ghost var all := Pasted(Walked(a), e2);
    WalkedNext(a);
    dstPos := 0;
    var path: Pointer := At(0);
    ghost var rest := a;
    while path.At?
      invariant if path.At? then WellFormed(rest) && PathAt(src1, path.offset, rest) else rest == []
      invariant dstPos <= dst.Length && dst[..dstPos] + Pasted(Walked(rest), e2) == all
      decreases |rest|
    {
      var inst, size;
      ghost var piece;
      inst, path, size, piece, rest := TakeInstance(src1, path, rest);
      PastedCons(piece, Walked(rest), e2);
      ghost var done := dst[..dstPos];
      hide Pasted, Walked, WellFormed, PathAt, EncodeAll;
      Regroup(done, EncodeAll(piece), e2, Pasted(Walked(rest), e2));
      dstPos := PastePiece(dst, dstPos, src1, inst, size, src2, src2Size);
    }
  }

  lemma PastedCons(piece: seq<Node>, rest: seq<seq<Node>>, tail: seq<Byte>)
    ensures Pasted([piece] + rest, tail) == EncodeAll(piece) + tail + END_INSTANCE_BYTES + Pasted(rest, tail)
  {
    assert ([piece] + rest)[1..] == rest;
  }

  lemma Regroup(done: seq<Byte>, inst: seq<Byte>, tail: seq<Byte>, rest: seq<Byte>)
    ensures done + (inst + tail + END_INSTANCE_BYTES + rest) == (done + inst + tail + END_INSTANCE_BYTES) + rest
  {}

  /** One pass: the instance, Src2 and an end of instance, one after the other. */
  method PastePiece(dst: array<Byte>, at: nat, src1: seq<Byte>, inst: nat, size: nat, src2: seq<Byte>, src2Size: nat)
      returns (dstPos: nat)
    requires inst + size <= |src1| && src2Size <= |src2| && at + size + src2Size + HEADER <= dst.Length
    modifies dst
    ensures dstPos == at + size + src2Size + HEADER
    ensures dst[..dstPos] == old(dst[..at]) + src1[inst..inst + size] + src2[..src2Size] + END_INSTANCE_BYTES
  {
    CopyMem(dst, at, src1, inst, size);
    dstPos := at + size;
    assert dst[..dstPos] == old(dst[..at]) + src1[inst..inst + size];
    CopyMem(dst, dstPos, src2, 0, src2Size);
    dstPos := dstPos + src2Size;
    assert dst[..dstPos] == old(dst[..at]) + src1[inst..inst + size] + src2[..src2Size];
    CopyMem(dst, dstPos, END_INSTANCE_BYTES, 0, HEADER);
    dstPos := dstPos + HEADER;
  }

  // ---- What the result means ------------------------------------------------

  lemma {:induction false} PastedSize(insts: seq<seq<Node>>, tail: seq<Byte>)
    ensures |Pasted(insts, tail)| == SizeSum(insts) + |insts| * (|tail| + HEADER)
  {
    if insts != [] {
      PastedSize(insts[1..], tail);
      SizeOfEncoding(insts[0]);
      var n, k := |insts| - 1, |tail| + HEADER;
      assert (n + 1) * k == n * k + k;
    }
  }

  /** The bytes of a path that are neither in a piece that the walk yields nor in four bytes behind it. */
  ghost function Skipped(a: seq<Node>): int {
    |EncodeAll(a)| - SizeSum(Walked(a)) - HEADER * |Walked(a)|
  }

  lemma SkippedNothing(a: seq<Node>)
    requires WellFormed(a)
    ensures Walked(a) != [] && Skipped(a) >= 0
    ensures Short(Instances(a)) ==> Walked(a) == Instances(a) && Skipped(a) == 0
  {
    hide *;
    SkippedIs(a);
    WalkedNext(a);
    WalkedSizes(a);
    WalkIsPartition(a);
    SizesAddUp(a);
    SizeOfEncoding(a);
  }

  lemma SkippedIs(a: seq<Node>)
    ensures Skipped(a) == |EncodeAll(a)| - SizeSum(Walked(a)) - HEADER * |Walked(a)|
  {}

  /**
   * The writes stay inside the allocation exactly when, for each piece after the first, Src2 is no longer than
   * Src1, up to the bytes that the walk skips. When no instance is over 513 nodes that means one instance, or a
   * Src2 no longer than Src1.
   */
  lemma PastedFits(a: seq<Node>, b: seq<Node>)
    requires WellFormed(a) && WellFormed(b)
    ensures Walked(a) != []
    ensures |Pasted(Walked(a), EncodeAll(b))| <= Allocated(|EncodeAll(a)|, |Walked(a)|, |EncodeAll(b)|)
       <==> (|Walked(a)| - 1) * |EncodeAll(b)| <= (|Walked(a)| - 1) * |EncodeAll(a)| + Skipped(a)
    ensures Short(Instances(a)) ==>
      (|Pasted(Walked(a), EncodeAll(b))| <= Allocated(|EncodeAll(a)|, |Walked(a)|, |EncodeAll(b)|)
       <==> |Instances(a)| == 1 || |EncodeAll(b)| <= |EncodeAll(a)|)
    ensures |Pasted(Walked(a), EncodeAll(b))| == Allocated(|EncodeAll(a)|, |Walked(a)|, |EncodeAll(b)|)
       <==> (|Walked(a)| - 1) * |EncodeAll(b)| == (|Walked(a)| - 1) * |EncodeAll(a)| + Skipped(a)
  {
    hide *;
    SkippedIs(a);
    SkippedNothing(a);
    PastedSize(Walked(a), EncodeAll(b));
    var n, s1, s2 := |Walked(a)|, |EncodeAll(a)|, |EncodeAll(b)|;
    FitArithmetic(n, s1, s2, SizeSum(Walked(a)), |Pasted(Walked(a), EncodeAll(b))|, Skipped(a));
    MulOrder(n - 1, s1, s2);
  }

  lemma FitArithmetic(n: nat, s1: nat, s2: nat, sum: nat, p: nat, skipped: int)
    requires n >= 1 && sum + HEADER * n + skipped == s1 && p == sum + n * (s2 + HEADER)
    ensures Allocated(s1, n, s2) - p == (n - 1) * s1 + skipped - (n - 1) * s2
  {
    var m := n - 1;
    assert n * (s2 + HEADER) == n * s2 + n * HEADER;
    assert n * s2 == m * s2 + s2 && s1 * n == m * s1 + s1;
  }

  lemma MulOrder(m: nat, x: nat, y: nat)
    ensures m * y <= m * x <==> m == 0 || y <= x
  {
    if y <= x {
      assert m * x == m * y + m * (x - y);
    } else if m > 0 {
      assert m * y == m * x + m * (y - x);
      assert m * (y - x) >= 1;
    }
  }

  /** Two empty instances and a longer path of one node: the copy leaves the allocation. */
  lemma PastedOverruns()
    ensures var a, b := [END_INSTANCE_NODE, END_NODE], [Node(1, 1, [0]), END_NODE];
      WellFormed(a) && WellFormed(b) &&
      |Pasted(Walked(a), EncodeAll(b))| > Allocated(|EncodeAll(a)|, |Walked(a)|, |EncodeAll(b)|)
  {
    hide Instances, Walked, Pasted, EncodeAll, WellFormed, Allocated;
    var n := Node(1, 1, [0]);
    var a, b := [END_INSTANCE_NODE, END_NODE], [n, END_NODE];
    PairPath(END_INSTANCE_NODE);
    PairPath(n);
    TwoEmptyInstances();
    PastedFits(a, b);
  }

  lemma TwoEmptyInstances()
    ensures WellFormed([END_INSTANCE_NODE, END_NODE]) && Instances([END_INSTANCE_NODE, END_NODE]) == [[], []]
  {
    PairPath(END_INSTANCE_NODE);
    assert [] + [END_INSTANCE_NODE] + [END_NODE] == [END_INSTANCE_NODE, END_NODE];
    assert [] + [END_NODE] + [] == [END_NODE];
    InstancesCons([], END_INSTANCE_NODE, [END_NODE]);
    InstancesCons([], END_NODE, []);
  }

  lemma PairPath(n: Node)
    requires Encodable(n) && !IsEnd(n) && (IsEndType(n) ==> n.payload == [] && n.sub == END_INSTANCE)
    ensures WellFormed([n, END_NODE]) && EncodeAll([n, END_NODE]) == Encode(n) + END_BYTES
  {
    assert [n, END_NODE][1..] == [END_NODE];
    SingleNode(END_NODE);
    EndBytes(END_NODE);
  }

  /** A reader of the result sees the first piece of Src1 followed by Src2. */
  lemma PastedPath(insts: seq<seq<Node>>, b: seq<Node>, p: seq<Byte>, mem: seq<Byte>)
    requires insts != [] && p == Pasted(insts, EncodeAll(b))
    requires |p| <= |mem| && mem[..|p|] == p[..|p| - HEADER] + END_BYTES
    ensures PathAt(mem, 0, insts[0] + b)
  {
    var x, y := EncodeAll(insts[0]), EncodeAll(b);
    EncodeAllAppend(insts[0], b);
    assert p == x + y + END_INSTANCE_BYTES + Pasted(insts[1..], y);
    hide Pasted, EncodeAll;
    PrefixKept(x + y, END_INSTANCE_BYTES, Pasted(insts[1..], y), mem);
    assert mem[0..] == mem;
  }

  lemma PrefixKept(e: seq<Byte>, z: seq<Byte>, r: seq<Byte>, mem: seq<Byte>)
    requires |z| == HEADER && |e + z + r| <= |mem|
    requires mem[..|e + z + r|] == (e + z + r)[..|e + z + r| - HEADER] + END_BYTES
    ensures e <= mem
  {
    var p := e + z + r;
    assert forall i | 0 <= i < |e| :: mem[i] == mem[..|p|][i] == p[i] == e[i];
  }

  /** Where piece k starts in what the copy loop writes. */
  function PieceOffset(insts: seq<seq<Node>>, size2: nat, k: nat): nat
    requires k <= |insts|
  {
    SizeSum(insts[..k]) + k * (size2 + 4)
  }

  lemma PieceOffsetNext(insts: seq<seq<Node>>, size2: nat, k: nat)
    requires 0 < k <= |insts|
    ensures PieceOffset(insts, size2, k) == SizeOf(insts[0]) + size2 + 4 + PieceOffset(insts[1..], size2, k - 1)
  {
    assert insts[..k] == [insts[0]] + insts[1..][..k - 1];
    SizeSumCons(insts[0], insts[1..][..k - 1]);
    var m, w := k - 1, size2 + 4;
    assert (m + 1) * w == m * w + w;
  }

  /** Each piece is written with the whole second path and an end of instance right behind it. */
  lemma {:induction false} PastedAt(insts: seq<seq<Node>>, tail: seq<Byte>, k: nat)
    requires k < |insts|
    ensures var o, piece := PieceOffset(insts, |tail|, k), EncodeAll(insts[k]) + tail + [0x7F, 0x01, 4, 0];
      o + |piece| <= |Pasted(insts, tail)| && Pasted(insts, tail)[o..o + |piece|] == piece
    decreases k
  {
    hide EncodeAll;
    var first, rest := EncodeAll(insts[0]) + tail + END_INSTANCE_BYTES, Pasted(insts[1..], tail);
    assert Pasted(insts, tail) == first + rest;
    hide Pasted, PieceOffset;
    if k == 0 {
      FirstOffset(insts, |tail|);
    } else {
      PastedAt(insts[1..], tail, k - 1);
      PieceOffsetNext(insts, |tail|, k);
      SizeOfEncoding(insts[0]);
      SliceBehind(first, rest, PieceOffset(insts[1..], |tail|, k - 1), |EncodeAll(insts[k])| + |tail| + 4);
    }
  }

  lemma SliceBehind(a: seq<Byte>, b: seq<Byte>, o: nat, n: nat)
    requires o + n <= |b|
    ensures (a + b)[|a| + o..|a| + o + n] == b[o..o + n]
  {}

  lemma FirstOffset(insts: seq<seq<Node>>, size2: nat)
    ensures PieceOffset(insts, size2, 0) == 0
  {
    assert insts[..0] == [];
  }

  /** From the start of each piece in the result, a reader sees that piece of Src1 followed by Src2. */
  lemma PastedPathAt(insts: seq<seq<Node>>, b: seq<Node>, p: seq<Byte>, mem: seq<Byte>, k: nat)
    requires k < |insts| && p == Pasted(insts, EncodeAll(b))
    requires |p| <= |mem| && mem[..|p|] == p[..|p| - HEADER] + END_BYTES
    ensures PathAt(mem, PieceOffset(insts, |EncodeAll(b)|, k), insts[k] + b)
  {
    var x, y := EncodeAll(insts[k]), EncodeAll(b);
    EncodeAllAppend(insts[k], b);
    PastedAt(insts, y, k);
    hide Pasted, EncodeAll, PieceOffset;
    PieceKept(p, mem, PieceOffset(insts, |y|, k), x + y, [0x7F, 0x01, 4, 0]);
  }

  lemma PieceKept(p: seq<Byte>, mem: seq<Byte>, o: nat, e: seq<Byte>, z: seq<Byte>)
    requires |z| == HEADER && o + |e + z| <= |p| <= |mem| && p[o..o + |e + z|] == e + z
    requires mem[..|p|] == p[..|p| - HEADER] + END_BYTES
    ensures e <= mem[o..]
  {
    var n := |p| - HEADER;
    assert mem[..n] == mem[..|p|][..n] == p[..n];
    assert e == p[o..o + |e + z|][..|e|] == p[..n][o..o + |e|];
    assert mem[o..][..|e|] == mem[..n][o..o + |e|];
  }

  lemma FirstAppendedWellFormed(first: seq<Node>, b: seq<Node>)
    requires NoEnds(first) && AllEncodable(first) && WellFormed(b)
    ensures WellFormed(first + b)
  {
    var c, n := first + b, |first|;
    assert forall i | 0 <= i < |c| :: c[i] == if i < n then first[i] else b[i - n];
  }

  lemma FirstAppended(first: seq<Node>, b: seq<Node>)
    requires NoEnds(first) && WellFormed(b)
    ensures Instances(b) != []
    ensures Instances(first + b) == [first + Instances(b)[0]] + Instances(b)[1..]
  {
    hide *;
    FirstSplit(b);
    var k := FirstEnd(b);
    var x, e, rest := b[..k], b[k], b[k + 1..];
    NoEndsAppend(first, x);
    InstancesCons(x, e, rest);
    InstancesCons(first + x, e, rest);
    Associative(first, x + [e], rest);
    Associative(first, x, [e]);
    assert ([x] + Instances(rest))[1..] == Instances(rest);
  }

  lemma NoEndsAppend(a: seq<Node>, b: seq<Node>)
    requires NoEnds(a) && NoEnds(b)
    ensures NoEnds(a + b)
  {}

  /** What the comment above the function asks for: Src2 after each instance. */
  function OnEach(x: seq<seq<Node>>, y: seq<seq<Node>>): seq<seq<Node>>
    requires y != []
  {
    if x == [] then [] else [x[0] + y[0]] + y[1..] + OnEach(x[1..], y)
  }

  lemma {:induction false} OnEachCount(x: seq<seq<Node>>, y: seq<seq<Node>>)
    requires y != []
    ensures |OnEach(x, y)| == |x| * |y|
  {
    if x != [] {
      OnEachCount(x[1..], y);
      var n, k := |x| - 1, |y|;
      assert (n + 1) * k == n * k + k;
    }
  }

  /**
   * The path that is read back has the instances the comment promises exactly when Src1 has a single instance, of
   * at most 513 nodes.
   */
  lemma AppendMeetsComment(a: seq<Node>, b: seq<Node>)
    requires WellFormed(a) && WellFormed(b)
    ensures Walked(a) != [] && Instances(a) != [] && Instances(b) != []
    ensures Instances(Walked(a)[0] + b) == OnEach(Instances(a), Instances(b))
       <==> |Instances(a)| == 1 && |Instances(a)[0]| <= WALK_LIMIT
  {
    hide WellFormed, FirstEnd, Cut, Instances, Walked, NoEnds, IsEndType, OnEach;
    WalkParts(a);
    CutInside(a);
    var k, c := FirstEnd(a), Cut(a);
    var x, y, piece := Instances(a), Instances(b), a[..c];
    FirstAppended(piece, b);
    OnEachCount(x, y);
    if |x| == 1 {
      OnOne(x, y);
      SamePiece(piece, x[0], y[0], y[1..]);
    } else {
      assert |x| * |y| >= 2 * |y|;
    }
  }

  lemma OnOne(x: seq<seq<Node>>, y: seq<seq<Node>>)
    requires |x| == 1 && y != []
    ensures OnEach(x, y) == [x[0] + y[0]] + y[1..]
  {
    assert OnEach(x[1..], y) == [];
  }

  lemma SamePiece(p: seq<Node>, q: seq<Node>, y: seq<Node>, rest: seq<seq<Node>>)
    requires p <= q
    ensures [p + y] + rest == [q + y] + rest <==> |p| == |q|
  {
    ConsEqual(p + y, q + y, rest, rest);
    if |p| == |q| {
      assert p == q;
    } else {
      assert |p + y| != |q + y|;
    }
  }

  /** With two instances, and with one of 514 nodes, the comment is not met. */
  lemma CommentNotMet(b: seq<Node>)
    requires WellFormed(b)
    ensures Instances(b) != []
    ensures var a := [END_INSTANCE_NODE, END_NODE];
      WellFormed(a) && Walked(a) != [] && Instances(Walked(a)[0] + b) != OnEach(Instances(a), Instances(b))
    ensures var a := PlainPath(514);
      WellFormed(a) && Walked(a) != [] && Instances(Walked(a)[0] + b) != OnEach(Instances(a), Instances(b))
  {
    hide WellFormed, Instances, Walked, PlainPath, OnEach;
    TwoEmptyInstances();
    PlainPathInstances(514);
    AppendMeetsComment([END_INSTANCE_NODE, END_NODE], b);
    AppendMeetsComment(PlainPath(514), b);
  }

  lemma OnlyInstance(a: seq<Node>)
    requires WellFormed(a) && |Instances(a)| == 1
    ensures a != []
    ensures Instances(a)[0] == a[..|a| - 1] && NoEnds(a[..|a| - 1]) && AllEncodable(a[..|a| - 1])
  {
    hide Instances, FirstEnd, IsEndType, NoEnds;
    FirstSplit(a);
    var k := FirstEnd(a);
    InstancesCons(a[..k], a[k], a[k + 1..]);
    if k < |a| - 1 {
      FirstSplit(a[k + 1..]);
      var rest := a[k + 1..];
      InstancesCons(rest[..FirstEnd(rest)], rest[FirstEnd(rest)], rest[FirstEnd(rest) + 1..]);
    }
  }

  lemma PastedOnce(first: seq<Node>, tail: seq<Byte>)
    ensures var p := Pasted([first], tail);
      HEADER <= |p| && p[..|p| - HEADER] == EncodeAll(first) + tail
  {
    hide EncodeAll;
    assert Pasted([first][1..], tail) == [];
  }

  /**
   * On a path of one instance, the bytes written are exactly those allocated: the nodes of Src1, all of Src2, and
   * one more end node. They read as one complete path whose first instance is extended by that of Src2.
   */
  lemma SingleAppend(a: seq<Node>, b: seq<Node>)
    requires WellFormed(a) && WellFormed(b) && |Instances(a)| == 1 && |Instances(a)[0]| <= WALK_LIMIT
    ensures Instances(b) != []
    ensures var p, nodes := Pasted(Walked(a), EncodeAll(b)), a[..|a| - 1] + b;
      && HEADER <= |p| == Allocated(|EncodeAll(a)|, |Walked(a)|, |EncodeAll(b)|)
      && p[..|p| - HEADER] + END_BYTES == EncodeAll(nodes) + END_BYTES
      && WellFormed(nodes) && Instances(nodes) == [Instances(a)[0] + Instances(b)[0]] + Instances(b)[1..]
  {
    hide EncodeAll, Instances, Pasted, Walked, WellFormed, AllEncodable, NoEnds, Allocated, Skipped;
    assert Short(Instances(a));
    SkippedNothing(a);
    PastedFits(a, b);
    OnlyInstance(a);
    var first := a[..|a| - 1];
    assert Walked(a) == [first];
    PastedOnce(first, EncodeAll(b));
    EncodeAllAppend(first, b);
    FirstAppendedWellFormed(first, b);
    FirstAppended(first, b);
  }

  // ---- Appending a node -----------------------------------------------------

  /** The path that a node followed by an end node is read as; a node that ends the whole path hides the other. */
  function NodePath(n: Node): seq<Node> {
    if IsEnd(n) then [n] else [n, END_NODE]
  }

  /** A node that may stand in a complete path. */
  predicate Fit(n: Node) {
    Encodable(n) && (IsEndType(n) ==> n.payload == [] && (n.sub == END_ENTIRE || n.sub == END_INSTANCE))
  }

  lemma NodePathWellFormed(n: Node)
    requires Fit(n)
    ensures WellFormed(NodePath(n)) && EncodeAll(NodePath(n)) <= Encode(n) + END_BYTES
    ensures !IsEnd(n) ==> EncodeAll(NodePath(n)) == Encode(n) + END_BYTES
  {
    if IsEnd(n) {
      SingleNode(n);
    } else {
      PairPath(n);
    }
  }

  /** Src2 with a terminator put on it, in a buffer of its own. */
  method Terminate(src2: seq<Byte>, ghost n: Node) returns (temp: array<Byte>)
    requires Encodable(n) && Encode(n) <= src2
    ensures fresh(temp) && temp[..] == Encode(n) + END_BYTES
  {
    hide Encode, NodeLength;
    CopiedNode(src2, n);
    var length := NodeLength(src2, 0);
    temp := new Byte[length + HEADER];
    CopyMem(temp, 0, src2, 0, length);
    assert temp[..length] == src2[0..length] == Encode(n);
    assert temp[..][..length] == temp[..length];
    CopiedNode(temp[..], n);
    var eop := NodeLength(temp[..], 0);
    SetDevicePathEndNode(temp, eop);
    assert temp[..] == temp[..eop] + temp[eop..eop + HEADER];
  }

  lemma CopiedNode(mem: seq<Byte>, n: Node)
    requires Encodable(n) && Encode(n) <= mem
    ensures HEADER <= Length(n) <= |mem| && NodeLength(mem, 0) == Length(n) && mem[0..Length(n)] == Encode(n)
  {
    var e := Encode(n);
    EncodedHeader(n);
    hide Encode;
    assert mem[2] == e[2] && mem[3] == e[3];
  }

  method SetDevicePathEndNode(a: array<Byte>, at: nat)
    requires at + HEADER <= a.Length
    modifies a
    ensures a[..at] == old(a[..at]) && a[at..at + 4] == [0x7F, 0xFF, 4, 0] && a[at + 4..] == old(a[at + 4..])
  {
    a[at] := END_DEVICE_PATH_TYPE;
    a[at + 1] := END_ENTIRE;
    a[at + 2] := HEADER as Byte;
    a[at + 3] := 0;
  }

  /** tempPool and pool say whether each of the two allocations has room. */
  method AppendDevicePathNode(src1: Path, src2: seq<Byte>, ghost a: seq<Node>, ghost n: Node,
                              tempPool: bool, pool: bool)
      returns (dst: array?<Byte>)
    requires Fit(n) && Encode(n) <= src2
    requires src1.Path? ==> WellFormed(a) && PathAt(src1.mem, 0, a)
    requires src1.Path? ==> |Pasted(Walked(a), EncodeAll(NodePath(n)))|
                            <= Allocated(|EncodeAll(a)|, |Walked(a)|, |EncodeAll(NodePath(n))|)
    ensures dst != null <==> tempPool && pool
    ensures dst != null && src1.NoPath? ==> dst[..] == EncodeAll(NodePath(n))
    ensures dst != null && src1.Path? ==>
      && dst.Length == Allocated(|EncodeAll(a)|, |Walked(a)|, |EncodeAll(NodePath(n))|)
      && var p := Pasted(Walked(a), EncodeAll(NodePath(n)));
         HEADER <= |p| <= dst.Length && dst[..|p|] == p[..|p| - HEADER] + END_BYTES
  {
    hide EncodeAll, Encode, WellFormed, Pasted, Allocated, NodePath, Walked;
    if !tempPool {
      return null;
    }
    var temp := Terminate(src2, n);
    NodePathWellFormed(n);
    CopiedPath(temp[..], NodePath(n));
    dst := AppendDevicePath(src1, Path(temp[..]), a, NodePath(n), pool);
  }
}
