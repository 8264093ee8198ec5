/** DevicePathInstance, DevicePathInstanceCount, DevicePathSize and
    DuplicateDevicePath of gnu-efi/lib/dpath.c. */
module DevicePathWalk {
  import opened Common
  import opened DevicePathNodes

  datatype Pointer = Null | At(offset: nat)

  /** A path passed by a caller: NULL, or the memory from its first byte on. */
  datatype Path = NoPath | Path(mem: seq<Byte>)

  // ---- Instances of a path --------------------------------------------------

  function FirstEnd(ns: seq<Node>): (k: nat)
    ensures k <= |ns|
    ensures forall i | 0 <= i < k :: !IsEndType(ns[i])
    ensures k < |ns| ==> IsEndType(ns[k])
  {
    if ns == [] || IsEndType(ns[0]) then 0 else
      var k := FirstEnd(ns[1..]);
      assert forall i | 0 < i < k + 1 :: ns[i] == ns[1..][i - 1];
      1 + k
  }

  /** The node lists between end nodes, in order. */
  function Instances(ns: seq<Node>): seq<seq<Node>>
    decreases |ns|
  {
    if ns == [] then [] else
      var k := FirstEnd(ns);
      [ns[..k]] + if k == |ns| then [] else Instances(ns[k + 1..])
  }

  /** A path with the given instances. */
  function Joined(insts: seq<seq<Node>>): seq<Node>
    requires insts != []
  {
    if |insts| == 1 then insts[0] + [END_NODE]
    else insts[0] + [END_INSTANCE_NODE] + Joined(insts[1..])
  }

  predicate NoEnds(ns: seq<Node>) {
    forall i | 0 <= i < |ns| :: !IsEndType(ns[i])
  }

  lemma FirstEndAt(a: seq<Node>, b: seq<Node>)
    requires NoEnds(a) && b != [] && IsEndType(b[0])
    ensures FirstEnd(a + b) == |a|
  {
    var s := a + b;
    assert s[|a|] == b[0];
    assert forall i | 0 <= i < |a| :: s[i] == a[i];
  }

  lemma InstancesCons(a: seq<Node>, e: Node, rest: seq<Node>)
    requires NoEnds(a) && IsEndType(e)
    ensures Instances(a + [e] + rest) == [a] + Instances(rest)
  {
    var s := a + [e] + rest;
    assert s == a + ([e] + rest);
    FirstEndAt(a, [e] + rest);
    assert s[..|a|] == a && s[|a| + 1..] == rest;
  }

  /** Splitting undoes joining. */
  lemma {:induction false} InstancesOfJoined(insts: seq<seq<Node>>)
    requires insts != [] && forall i | 0 <= i < |insts| :: NoEnds(insts[i])
    ensures Instances(Joined(insts)) == insts
  {
    hide Instances, Joined, NoEnds;
    var a, rest := insts[0], insts[1..];
    assert insts == [a] + rest;
    JoinedParts(insts);
    if rest == [] {
      InstancesCons(a, END_NODE, []);
    } else {
      InstancesCons(a, END_INSTANCE_NODE, Joined(rest));
      InstancesOfJoined(rest);
    }
  }

  lemma JoinedParts(insts: seq<seq<Node>>)
    requires insts != []
    ensures Joined(insts) == insts[0] + [if |insts| == 1 then END_NODE else END_INSTANCE_NODE] +
                             if |insts| == 1 then [] else Joined(insts[1..])
    ensures Instances([]) == []
    ensures IsEndType(END_NODE) && IsEndType(END_INSTANCE_NODE)
  {}

  /** A complete path is its first instance, an end node and the rest. */
  lemma FirstSplit(ns: seq<Node>)
    requires WellFormed(ns)
    ensures FirstEnd(ns) < |ns| && NoEnds(ns[..FirstEnd(ns)]) && IsEndType(ns[FirstEnd(ns)])
    ensures ns == ns[..FirstEnd(ns)] + [ns[FirstEnd(ns)]] + ns[FirstEnd(ns) + 1..]
    ensures FirstEnd(ns) < |ns| - 1 ==> WellFormed(ns[FirstEnd(ns) + 1..])
  {
    hide WellFormed, FirstEnd, IsEndType;
    EndInside(ns);
    if FirstEnd(ns) < |ns| - 1 {
      WellFormedRest(ns, FirstEnd(ns));
    }
    SplitNode(ns, FirstEnd(ns));
  }

  lemma WellFormedRest(ns: seq<Node>, k: nat)
    requires WellFormed(ns) && k < |ns| - 1
    ensures WellFormed(ns[k + 1..])
  {
    var m := ns[k + 1..];
    assert forall i | 0 <= i < |m| :: m[i] == ns[i + k + 1];
  }

  lemma EndInside(ns: seq<Node>)
    requires WellFormed(ns)
    ensures FirstEnd(ns) < |ns|
    ensures ns[FirstEnd(ns)].payload == []
    ensures ns[FirstEnd(ns)].sub == END_ENTIRE <==> FirstEnd(ns) == |ns| - 1
  {
    assert IsEndType(ns[|ns| - 1]);
  }

  function SizeSum(insts: seq<seq<Node>>): nat {
    if insts == [] then 0 else SizeOf(insts[0]) + SizeSum(insts[1..])
  }

  /** No byte of a path lies outside its instances and their 4-byte end nodes. */
  lemma {:induction false} SizesAddUp(ns: seq<Node>)
    requires WellFormed(ns)
    ensures SizeSum(Instances(ns)) + HEADER * |Instances(ns)| == SizeOf(ns)
    decreases |ns|
  {
    FirstSplit(ns);
    EndInside(ns);
    var k := FirstEnd(ns);
    var a, e, rest := ns[..k], ns[k], ns[k + 1..];
    assert Length(e) == HEADER && Encodable(e);
    assert rest == [] ==> SizeOf(rest) == 0 && Instances(rest) == [] && SizeSum([]) == 0;
    hide WellFormed, FirstEnd, Instances, SizeOf, Encode;
    InstancesCons(a, e, rest);
    SingleNode(e);
    SizeOfAppend(a, [e]);
    SizeOfAppend(a + [e], rest);
    assert ([a] + Instances(rest))[1..] == Instances(rest);
    if rest != [] {
      SizesAddUp(rest);
    }
  }

  // ---- What the walk yields -------------------------------------------------

  /** The loop gives up after stepping over 513 nodes (Count > 01000, octal). */
  const WALK_LIMIT := 513

  function Cut(ns: seq<Node>): (k: nat)
    ensures k <= |ns|
  {
    if FirstEnd(ns) <= WALK_LIMIT then FirstEnd(ns) else WALK_LIMIT
  }

  /** The node lists that repeated calls return: the node at the cut is skipped,
      and a subtype of 0xFF there stops the walk whatever the node's type. */
  function Walked(ns: seq<Node>): seq<seq<Node>>
    decreases |ns|
  {
    if ns == [] then [] else
      var k := Cut(ns);
      [ns[..k]] + if k == |ns| || ns[k].sub == END_ENTIRE then [] else Walked(ns[k + 1..])
  }

  lemma WalkedNext(ns: seq<Node>)
    requires WellFormed(ns)
    ensures Cut(ns) < |ns|
    ensures Walked(ns) == [ns[..Cut(ns)]] + if ns[Cut(ns)].sub == END_ENTIRE then [] else Walked(ns[Cut(ns) + 1..])
  {
    EndInside(ns);
  }

  ghost predicate Short(insts: seq<seq<Node>>) {
    forall i | 0 <= i < |insts| :: |insts[i]| <= WALK_LIMIT
  }

  lemma ShortNone()
    ensures Short([])
  {}

  lemma ShortCons(a: seq<Node>, insts: seq<seq<Node>>)
    ensures Short([a] + insts) <==> |a| <= WALK_LIMIT && Short(insts)
  {
    var all := [a] + insts;
    assert all[0] == a && forall i | 0 <= i < |insts| :: insts[i] == all[i + 1];
  }

  lemma ConsEqual<T>(a: T, b: T, x: seq<T>, y: seq<T>)
    ensures [a] + x == [b] + y <==> a == b && x == y
  {
    assert ([a] + x)[0] == a && ([b] + y)[0] == b;
    assert ([a] + x)[1..] == x && ([b] + y)[1..] == y;
  }

  /** The first instance and the first piece of a path, and what is behind them. */
  lemma WalkParts(ns: seq<Node>)
    requires WellFormed(ns)
    ensures var k, c := FirstEnd(ns), Cut(ns);
      && k < |ns| && c < |ns| && c == (if k <= WALK_LIMIT then k else WALK_LIMIT)
      && Instances(ns) == [ns[..k]] + Instances(ns[k + 1..])
      && Walked(ns) == [ns[..c]] + (if ns[c].sub == END_ENTIRE then [] else Walked(ns[c + 1..]))
      && (ns[k].sub == END_ENTIRE <==> k == |ns| - 1)
      && (k < |ns| - 1 ==> WellFormed(ns[k + 1..]))
    ensures Instances([]) == []
  {
    FirstSplit(ns);
    EndInside(ns);
    WalkedNext(ns);
  }

  /** Repeated calls yield the instances exactly when none is over 513 nodes. */
  lemma {:induction false} WalkIsPartition(ns: seq<Node>)
    requires WellFormed(ns)
    ensures Walked(ns) == Instances(ns) <==> Short(Instances(ns))
    decreases |ns|
  {
    hide WellFormed, FirstEnd, Cut, Instances, Walked, Short, NoEnds, IsEndType;
    WalkParts(ns);
    ShortNone();
    var k, c := FirstEnd(ns), Cut(ns);
    var a, rest := ns[..k], ns[k + 1..];
    var tail := if ns[c].sub == END_ENTIRE then [] else Walked(ns[c + 1..]);
    PieceDecides(ns[..c], a, tail, Instances(rest));
    ShortCons(a, Instances(rest));
    if k <= WALK_LIMIT && k < |ns| - 1 {
      WalkIsPartition(rest);
    }
  }

  lemma PieceDecides(p: seq<Node>, a: seq<Node>, x: seq<seq<Node>>, y: seq<seq<Node>>)
    ensures |p| != |a| ==> [p] + x != [a] + y
    ensures p == a ==> ([p] + x == [a] + y <==> x == y)
  {
    ConsEqual(p, a, x, y);
  }

  /** Where the loop stops, and how: at an end node or at the limit. */
  lemma CutInside(ns: seq<Node>)
    requires WellFormed(ns)
    ensures Cut(ns) < |ns| && (IsEndType(ns[Cut(ns)]) || Cut(ns) == WALK_LIMIT)
    ensures Cut(ns) <= WALK_LIMIT && NoEnds(ns[..Cut(ns)])
    ensures ns[Cut(ns)].sub != END_ENTIRE ==> Cut(ns) < |ns| - 1
  {
    EndInside(ns);
  }

  /** The pieces that a walk yields, with four bytes each, never exceed the path. */
  lemma {:induction false} WalkedSizes(ns: seq<Node>)
    requires WellFormed(ns)
    ensures SizeSum(Walked(ns)) + HEADER * |Walked(ns)| <= SizeOf(ns)
    decreases |ns|
  {
    CutInside(ns);
    WalkedNext(ns);
    var k := Cut(ns);
    if ns[k].sub != END_ENTIRE {
      WellFormedRest(ns, k);
      WalkedSizes(ns[k + 1..]);
    }
    var tail := if ns[k].sub == END_ENTIRE then [] else Walked(ns[k + 1..]);
    hide WellFormed, FirstEnd, Cut, Walked, NoEnds, SizeOf;
    SizeSumCons(ns[..k], tail);
    SplitNode(ns, k);
    SingleNode(ns[k]);
    SizeOfAppend(ns[..k], [ns[k]]);
    SizeOfAppend(ns[..k] + [ns[k]], ns[k + 1..]);
  }

  lemma SizeSumCons(a: seq<Node>, insts: seq<seq<Node>>)
    ensures SizeSum([a] + insts) == SizeOf(a) + SizeSum(insts)
    ensures SizeSum([]) == 0
  {
    assert ([a] + insts)[1..] == insts;
  }

  // ---- An instance that is too long -----------------------------------------

  const PLAIN := Node(1, 1, [])

  /** A path of one instance of n plain nodes. */
  function PlainPath(n: nat): seq<Node> {
    seq(n, _ => PLAIN) + [END_NODE]
  }

  lemma PlainPathInstances(n: nat)
    ensures WellFormed(PlainPath(n)) && Instances(PlainPath(n)) == [seq(n, _ => PLAIN)]
  {
    var a := seq(n, _ => PLAIN);
    assert a + [END_NODE] + [] == PlainPath(n);
    InstancesCons(a, END_NODE, []);
  }

  /** The walk yields an instance of 513 nodes, but not one of 514. */
  lemma LongInstanceSplit()
    ensures WellFormed(PlainPath(513)) && Walked(PlainPath(513)) == Instances(PlainPath(513))
    ensures WellFormed(PlainPath(514)) && Walked(PlainPath(514)) != Instances(PlainPath(514))
  {
    hide WellFormed, Walked, Instances, PlainPath;
    PlainPathInstances(513);
    PlainPathInstances(514);
    assert |Instances(PlainPath(513))[0]| == 513 && |Instances(PlainPath(514))[0]| == 514;
    WalkIsPartition(PlainPath(513));
    WalkIsPartition(PlainPath(514));
  }

  /** Of a longer instance the first 513 nodes are yielded, the next node is skipped and the walk goes on behind it. */
  lemma LongPiece(ns: seq<Node>)
    requires WellFormed(ns) && Instances(ns) != [] && |Instances(ns)[0]| > 513 && ns[513].sub != 0xFF
    ensures Walked(ns) == [ns[..513]] + Walked(ns[514..])
  {
    hide WellFormed, Walked, Instances, FirstEnd, Cut;
    WalkParts(ns);
  }

  // ---- DevicePathInstance ---------------------------------------------------

  /** The cursor `c` of a call that started at `start` has stepped over `k` nodes of the piece. */
  ghost predicate InPiece(mem: seq<Byte>, start: nat, ns: seq<Node>, k: nat, c: nat) {
    k <= Cut(ns) && PathAt(mem, c, ns[k..]) && c == start + SizeOf(ns[..k])
  }

  lemma PieceStart(mem: seq<Byte>, start: nat, ns: seq<Node>)
    requires PathAt(mem, start, ns)
    ensures InPiece(mem, start, ns, 0, start)
  {
    assert ns[0..] == ns;
  }

  /** One node of the inner loop: it ends the piece exactly when it is the node at the cut. */
  lemma PieceStep(mem: seq<Byte>, start: nat, c: nat, ns: seq<Node>, k: nat)
    requires WellFormed(ns) && InPiece(mem, start, ns, k, c)
    ensures k <= Cut(ns) < |ns| && c + HEADER <= |mem| && mem[c + 1] == ns[k].sub
    ensures EndKind(mem[c]) || k > 0x200 <==> k == Cut(ns)
    ensures k < Cut(ns) ==> InPiece(mem, start, ns, k + 1, c + NodeLength(mem, c))
    ensures k == Cut(ns) ==>
      && c == start + SizeOf(ns[..Cut(ns)]) && (ns[k].sub != END_ENTIRE ==> Cut(ns) < |ns| - 1)
      && PathAt(mem, c + NodeLength(mem, c), ns[Cut(ns) + 1..])
      && c + NodeLength(mem, c) == start + SizeOf(ns[..Cut(ns) + 1])
  {
    CutInside(ns);
    OnlyLastEnds(ns, k);
    hide WellFormed, FirstEnd, Cut, SizeOf, PathAt, NodeLength;
    WalkStep(mem, c, ns, k);
    assert k < Cut(ns) ==> ns[k] == ns[..Cut(ns)][k];
  }

  method DevicePathInstance(mem: seq<Byte>, path: Pointer, ghost ns: seq<Node>)
      returns (inst: Pointer, next: Pointer, size: nat)
    requires path.At? ==> WellFormed(ns) && PathAt(mem, path.offset, ns)
    ensures path.Null? ==> inst == Null && next == Null
    ensures path.At? ==> inst == path && size == SizeOf(ns[..Cut(ns)])
    ensures path.At? ==>
      if ns[Cut(ns)].sub == END_ENTIRE then next == Null
      else next.At? && Cut(ns) < |ns| - 1 && PathAt(mem, next.offset, ns[Cut(ns) + 1..])
           && next.offset == path.offset + SizeOf(ns[..Cut(ns) + 1])
  {
    if path.Null? {
      return Null, Null, 0;
    }
    hide WellFormed, FirstEnd, Cut, SizeOf, PathAt, NodeLength, EndKind, InPiece;
    var start: nat := path.offset;
    var devPath: nat, count: nat, after: nat := start, 0, start;
    PieceStart(mem, start, ns);
    while true
      invariant 0 <= count && InPiece(mem, start, ns, count, devPath)
      decreases Cut(ns) - count
    {
      PieceStep(mem, start, devPath, ns, count);
      after := devPath + NodeLength(mem, devPath);
      if EndKind(mem[devPath]) {
        break;
      }
      if count > 0x200 {
        break;
      }
      devPath, count := after, count + 1;
    }
    next := if mem[devPath + 1] == END_ENTIRE then Null else At(after);
    size := devPath - start;
    inst := At(start);
  }

  lemma InstanceBytes(mem: seq<Byte>, c: nat, ns: seq<Node>, size: nat)
    requires WellFormed(ns) && PathAt(mem, c, ns) && size == SizeOf(ns[..Cut(ns)])
    ensures c + size <= |mem| && AllEncodable(ns[..Cut(ns)]) && NoEnds(ns[..Cut(ns)])
    ensures mem[c..c + size] == EncodeAll(ns[..Cut(ns)])
  {
    hide WellFormed, FirstEnd, Cut, NoEnds, SizeOf, EncodeAll, IsEndType, Encodable;
    CutInside(ns);
    WellFormedEncodable(ns);
    var a, b := ns[..Cut(ns)], ns[Cut(ns)..];
    assert ns == a + b;
    EncodeAllAppend(a, b);
    SizeOfEncoding(a);
    PrefixSlice(mem, c, EncodeAll(a), EncodeAll(b));
  }

  lemma WellFormedEncodable(ns: seq<Node>)
    requires WellFormed(ns)
    ensures AllEncodable(ns)
  {}

  lemma PrefixSlice(mem: seq<Byte>, c: nat, x: seq<Byte>, y: seq<Byte>)
    requires c <= |mem| && x + y <= mem[c..]
    ensures c + |x| <= |mem| && mem[c..c + |x|] == x
  {
    assert mem[c..c + |x|] == mem[c..][..|x|] == (x + y)[..|x|];
  }

  /** One call of DevicePathInstance in a loop: the piece it returns and the nodes
      that are left for the next call. */
  method TakeInstance(mem: seq<Byte>, path: Pointer, ghost ns: seq<Node>)
      returns (inst: nat, next: Pointer, size: nat, ghost piece: seq<Node>, ghost rest: seq<Node>)
    requires path.At? && WellFormed(ns) && PathAt(mem, path.offset, ns)
    ensures Walked(ns) == [piece] + Walked(rest) && |rest| < |ns|
    ensures AllEncodable(piece) && NoEnds(piece)
    ensures inst + size <= |mem| && mem[inst..inst + size] == EncodeAll(piece)
    ensures if next.At? then WellFormed(rest) && PathAt(mem, next.offset, rest) else rest == []
  {
    hide WellFormed, FirstEnd, Cut, Walked, SizeOf, EncodeAll, Encode, NoEnds, AllEncodable, PathAt;
    var start;
    start, next, size := DevicePathInstance(mem, path, ns);
    inst := start.offset;
    InstanceBytes(mem, inst, ns, size);
    WalkedNext(ns);
    PieceTaken(ns);
    NoPieces();
    piece := ns[..Cut(ns)];
    rest := if next.At? then ns[Cut(ns) + 1..] else [];
  }

  lemma NoPieces()
    ensures Walked([]) == []
  {}

  lemma PieceTaken(ns: seq<Node>)
    requires WellFormed(ns)
    ensures Cut(ns) < |ns|
    ensures if ns[Cut(ns)].sub == END_ENTIRE then |Walked(ns)| == 1
            else Cut(ns) < |ns| - 1 && WellFormed(ns[Cut(ns) + 1..]) && |Walked(ns)| == 1 + |Walked(ns[Cut(ns) + 1..])|
  {
    CutInside(ns);
    WalkedNext(ns);
    if ns[Cut(ns)].sub != END_ENTIRE {
      WellFormedRest(ns, Cut(ns));
    }
  }

  method DevicePathInstanceCount(mem: seq<Byte>, path: Pointer, ghost ns: seq<Node>) returns (count: nat)
    requires path.At? ==> WellFormed(ns) && PathAt(mem, path.offset, ns)
    ensures count == if path.Null? then 0 else |Walked(ns)|
  {
    hide WellFormed, Walked, Cut, PathAt, SizeOf;
    count := 0;
    var devicePath := path;
    ghost var rest := if path.Null? then [] else ns;
    NoPieces();
    while true
      invariant devicePath.Null? ==> rest == []
      invariant devicePath.At? ==> WellFormed(rest) && PathAt(mem, devicePath.offset, rest)
      invariant count + |Walked(rest)| == if path.Null? then 0 else |Walked(ns)|
      decreases |rest|
    {
      var inst, next, size := DevicePathInstance(mem, devicePath, rest);
      if inst.Null? {
        break;
      }
      count := count + 1;
      PieceTaken(rest);
      rest := if next.Null? then [] else rest[Cut(rest) + 1..];
      devicePath := next;
    }
  }

  // ---- DevicePathSize, DuplicateDevicePath ----------------------------------

  lemma OnlyLastEnds(ns: seq<Node>, k: nat)
    requires WellFormed(ns) && k < |ns|
    ensures Encodable(ns[k]) && (IsEnd(ns[k]) <==> k == |ns| - 1)
  {}

  /** The cursor `c` of a walk from `path` stands on node `k`. */
  ghost predicate OnNode(mem: seq<Byte>, path: nat, ns: seq<Node>, k: nat, c: nat) {
    && k < |ns| && PathAt(mem, c, ns[k..]) && c == path + SizeOf(ns[..k])
    && c + HEADER <= |mem| && NodeLength(mem, c) == Length(ns[k])
    && ((EndKind(mem[c]) && mem[c + 1] == END_ENTIRE) <==> k == |ns| - 1)
  }

  lemma OnThatNode(mem: seq<Byte>, path: nat, ns: seq<Node>, k: nat, c: nat)
    requires WellFormed(ns) && k < |ns| && PathAt(mem, c, ns[k..]) && c == path + SizeOf(ns[..k])
    ensures OnNode(mem, path, ns, k, c)
  {
    OnlyLastEnds(ns, k);
    hide WellFormed, SizeOf, PathAt, NodeLength;
    WalkStep(mem, c, ns, k);
  }

  lemma OnFirstNode(mem: seq<Byte>, path: nat, ns: seq<Node>)
    requires WellFormed(ns) && PathAt(mem, path, ns)
    ensures OnNode(mem, path, ns, 0, path)
  {
    assert ns[0..] == ns && SizeOf(ns[..0]) == 0;
    hide WellFormed, SizeOf, PathAt, OnNode;
    OnThatNode(mem, path, ns, 0, path);
  }

  lemma OnNextNode(mem: seq<Byte>, path: nat, ns: seq<Node>, k: nat, c: nat)
    requires WellFormed(ns) && OnNode(mem, path, ns, k, c) && k < |ns| - 1
    ensures OnNode(mem, path, ns, k + 1, c + NodeLength(mem, c))
  {
    OnlyLastEnds(ns, k);
    WalkStep(mem, c, ns, k);
    var next := c + NodeLength(mem, c);
    assert PathAt(mem, next, ns[k + 1..]) && next == path + SizeOf(ns[..k + 1]);
    hide WellFormed, PathAt, SizeOf, OnNode, EndKind, NodeLength;
    OnThatNode(mem, path, ns, k + 1, next);
  }

  lemma NodeFacts(mem: seq<Byte>, path: nat, ns: seq<Node>, k: nat, c: nat)
    requires OnNode(mem, path, ns, k, c)
    ensures k < |ns| && c + HEADER <= |mem| && c == path + SizeOf(ns[..k])
    ensures (EndKind(mem[c]) && mem[c + 1] == END_ENTIRE) <==> k == |ns| - 1
  {}

  /** Steps over nodes until the node that ends the whole path. */
  method FindEnd(mem: seq<Byte>, path: nat, ghost ns: seq<Node>) returns (devPath: nat)
    requires WellFormed(ns) && PathAt(mem, path, ns)
    ensures devPath == path + SizeOf(ns[..|ns| - 1]) && devPath + HEADER <= |mem|
  {
    hide WellFormed, PathAt, SizeOf, OnNode, EndKind, NodeLength;
    devPath := path;
    ghost var k := 0;
    OnFirstNode(mem, path, ns);
    NodeFacts(mem, path, ns, k, devPath);
    while !(EndKind(mem[devPath]) && mem[devPath + 1] == END_ENTIRE)
      invariant 0 <= k < |ns| && devPath + HEADER <= |mem|
      invariant OnNode(mem, path, ns, k, devPath)
      decreases |ns| - k
    {
      NodeFacts(mem, path, ns, k, devPath);
      OnNextNode(mem, path, ns, k, devPath);
      devPath := devPath + NodeLength(mem, devPath);
      k := k + 1;
      NodeFacts(mem, path, ns, k, devPath);
    }
    NodeFacts(mem, path, ns, k, devPath);
  }

  lemma EndSplit(ns: seq<Node>)
    requires WellFormed(ns)
    ensures SizeOf(ns) == SizeOf(ns[..|ns| - 1]) + HEADER
    ensures EncodeAll(ns) == EncodeAll(ns[..|ns| - 1]) + Encode(ns[|ns| - 1])
  {
    SplitLast(ns);
  }

  method DevicePathSize(mem: seq<Byte>, path: nat, ghost ns: seq<Node>) returns (size: nat)
    requires WellFormed(ns) && PathAt(mem, path, ns)
    ensures size == |EncodeAll(ns)| && path + size <= |mem|
    ensures mem[path..path + size] == EncodeAll(ns)
  {
    var devPath := FindEnd(mem, path, ns);
    EndSplit(ns);
    SizeOfEncoding(ns);
    size := devPath - path + HEADER;
    assert mem[path..path + size] == mem[path..][..size];
  }

  /** pool says whether the firmware's pool has room. */
  method DuplicateDevicePath(mem: seq<Byte>, path: nat, ghost ns: seq<Node>, pool: bool) returns (copy: array?<Byte>)
    requires WellFormed(ns) && PathAt(mem, path, ns)
    ensures copy != null <==> pool
    ensures copy != null ==> fresh(copy) && copy[..] == EncodeAll(ns)
  {
    var size := DevicePathSize(mem, path, ns);
    if !pool {
      return null;
    }
    copy := new Byte[size];
    CopyMem(copy, 0, mem, path, size);
  }
}
