/** LibMatchDevicePaths of gnu-efi/lib/dpath.c, which compares bytes (RtCompareMem
    of gnu-efi/lib/runtime/efirtlib.c), decides a relation on node lists. */
module DevicePathMatch {
  import opened Common
  import opened DevicePathNodes
  import opened DevicePathWalk

  /** All that matching may read of Single: the nodes of its first instance and
      the type byte of the end node after them. */
  ghost predicate SingleAt(mem: seq<Byte>, xs: seq<Node>)
  {
    && AllEncodable(xs) && NoEnds(xs)
    && exists t: Byte :: EndKind(t) && EncodeAll(xs) + [t] == mem
  }

  lemma TailsOf(xs: seq<Node>)
    requires xs != [] && AllEncodable(xs) && NoEnds(xs)
    ensures AllEncodable(xs[1..]) && NoEnds(xs[1..]) && !IsEndType(xs[0])
    ensures EncodeAll(xs) == Encode(xs[0]) + EncodeAll(xs[1..])
  {}

  /** Equal headers force equal lengths, and equal bytes then equal nodes. */
  lemma SameNode(x: Node, y: Node, s: seq<Byte>, t: seq<Byte>, j: nat)
    requires Encodable(x) && Encodable(y)
    requires j <= |s| && j <= |t| && Encode(x) <= s && Encode(y) <= t && s[..j] == t[..j]
    ensures j >= HEADER ==> Length(x) == Length(y)
    ensures j >= Length(y) ==> x == y
  {
    EncodedHeader(x);
    EncodedHeader(y);
    if j >= HEADER {
      assert forall i | 0 <= i < HEADER :: s[i] == s[..j][i] && t[i] == t[..j][i];
      assert Encode(x)[2] == Encode(y)[2] && Encode(x)[3] == Encode(y)[3];
    }
    if j >= Length(y) {
      assert forall i | 0 <= i < Length(y) :: s[i] == s[..j][i] && t[i] == t[..j][i];
      assert Encode(x) == Encode(y);
    }
  }

  lemma TailBytes(s: seq<Byte>, t: seq<Byte>, k: nat, j: nat)
    requires k <= j <= |s| && j <= |t| && s[..j] == t[..j]
    ensures s[k..][..j - k] == t[k..][..j - k]
  {
    assert s[k..][..j - k] == s[..j][k..];
    assert t[k..][..j - k] == t[..j][k..];
  }

  /** Single without its first node. */
  lemma SingleRest(mem: seq<Byte>, xs: seq<Node>)
    requires SingleAt(mem, xs) && xs != []
    ensures Encodable(xs[0]) && !IsEndType(xs[0]) && Length(xs[0]) < |mem| && Encode(xs[0]) <= mem
    ensures SingleAt(mem[Length(xs[0])..], xs[1..])
  {
    TailsOf(xs);
    var k := Length(xs[0]);
    hide Encode, EncodeAll, NoEnds, AllEncodable, EndKind;
    var t: Byte :| EndKind(t) && EncodeAll(xs) + [t] == mem;
    assert mem[k..] == EncodeAll(xs[1..]) + [t];
    assert mem[..k] == Encode(xs[0]);
  }

  lemma SingleEnd(mem: seq<Byte>, xs: seq<Node>)
    requires SingleAt(mem, xs)
    ensures mem != [] && (xs == [] ==> |mem| == 1 && EndKind(mem[0]))
  {}

  lemma FirstKind(ys: seq<Node>)
    requires ys != [] && AllEncodable(ys) && NoEnds(ys)
    ensures EncodeAll(ys) != [] && !EndKind(EncodeAll(ys)[0])
    ensures Encodable(ys[0]) && Encode(ys[0]) <= EncodeAll(ys)
    ensures EncodeAll(ys)[Length(ys[0])..] == EncodeAll(ys[1..]) && AllEncodable(ys[1..]) && NoEnds(ys[1..])
  {
    TailsOf(ys);
    EncodedHeader(ys[0]);
  }

  lemma NoBytes()
    ensures EncodeAll([]) == []
  {}

  /** While the bytes agree, the comparison has not passed Single's first end node. */
  lemma {:induction false} StaysInside(mem: seq<Byte>, xs: seq<Node>, ys: seq<Node>, j: nat)
    requires SingleAt(mem, xs) && AllEncodable(ys) && NoEnds(ys)
    requires j < |EncodeAll(ys)| && j <= |mem| && EncodeAll(ys)[..j] == mem[..j]
    ensures j < |mem|
    decreases |xs|
  {
    hide Encode, EncodeAll, NoEnds, AllEncodable, EndKind, SingleAt, IsEndType, Encodable;
    NoBytes();
    FirstKind(ys);
    SingleEnd(mem, xs);
    var e := EncodeAll(ys);
    if j > 0 {
      assert mem[0] == mem[..j][0] && e[0] == e[..j][0];
    }
    if xs != [] {
      SingleRest(mem, xs);
      SameNode(xs[0], ys[0], mem, e, j);
      var k := Length(xs[0]);
      if j >= k {
        TailBytes(e, mem, k, j);
        StaysInside(mem[k..], xs[1..], ys[1..], j - k);
      }
    }
  }

  /** The bytes of ys are a prefix of Single's exactly when its nodes are. */
  lemma PrefixBytes(mem: seq<Byte>, xs: seq<Node>, ys: seq<Node>)
    requires SingleAt(mem, xs) && AllEncodable(ys) && NoEnds(ys)
    ensures EncodeAll(ys) <= mem <==> ys <= xs
  {
    if EncodeAll(ys) <= mem {
      PrefixNodes(mem, xs, ys);
    }
    if ys <= xs {
      var rest := xs[|ys|..];
      assert xs == ys + rest;
      EncodeAllAppend(ys, rest);
    }
  }

  lemma {:induction false} PrefixNodes(mem: seq<Byte>, xs: seq<Node>, ys: seq<Node>)
    requires SingleAt(mem, xs) && AllEncodable(ys) && NoEnds(ys)
    requires EncodeAll(ys) <= mem
    ensures ys <= xs
    decreases |xs|
  {
    hide Encode, EncodeAll, NoEnds, AllEncodable, EndKind, SingleAt, IsEndType, Encodable;
    if ys != [] {
      var e := EncodeAll(ys);
      FirstKind(ys);
      SingleEnd(mem, xs);
      assert e[0] == mem[0];
      SingleRest(mem, xs);
      assert e[..|e|] == mem[..|e|];
      SameNode(xs[0], ys[0], mem, e, |e|);
      var k := Length(xs[0]);
      TailBytes(e, mem, k, |e|);
      assert e[k..] <= mem[k..];
      PrefixNodes(mem[k..], xs[1..], ys[1..]);
      assert ys == [ys[0]] + ys[1..] && xs == [xs[0]] + xs[1..];
    }
  }

  /** The first instance of any complete path can play Single. */
  lemma SingleOfPath(mem: seq<Byte>, ns: seq<Node>)
    requires WellFormed(ns) && PathAt(mem, 0, ns)
    ensures SizeOf(ns[..FirstEnd(ns)]) < |mem|
    ensures SingleAt(mem[..SizeOf(ns[..FirstEnd(ns)]) + 1], ns[..FirstEnd(ns)])
  {
    hide WellFormed, FirstEnd, SizeOf, Encode, EncodeAll, NoEnds, IsEndType;
    FirstSplit(ns);
    WellFormedEncodable(ns);
    var k := FirstEnd(ns);
    var a, b := ns[..k], ns[k..];
    assert ns == a + b;
    EncodeAllAppend(a, b);
    SizeOfEncoding(a);
    FirstByte(b);
    assert mem[0..] == mem;
    EndByte(mem, EncodeAll(a), EncodeAll(b));
    SingleMade(a, b[0], mem[..SizeOf(a) + 1]);
  }

  lemma SingleMade(a: seq<Node>, e: Node, mem: seq<Byte>)
    requires AllEncodable(a) && NoEnds(a) && IsEndType(e) && mem == EncodeAll(a) + [e.kind]
    ensures SingleAt(mem, a)
  {
    assert EndKind(e.kind);
  }

  lemma FirstByte(ns: seq<Node>)
    requires AllEncodable(ns) && ns != []
    ensures EncodeAll(ns) != [] && EncodeAll(ns)[0] == ns[0].kind
  {
    EncodedHeader(ns[0]);
  }

  lemma EndByte(mem: seq<Byte>, a: seq<Byte>, b: seq<Byte>)
    requires a + b <= mem && b != []
    ensures |a| < |mem| && a + [b[0]] == mem[..|a| + 1]
  {
    assert mem[|a|] == (a + b)[|a|];
  }

  // ---- The code -------------------------------------------------------------

  /** Where two byte strings first differ, and by how much. */
  predicate DifferBy(s: seq<Byte>, t: seq<Byte>, i: nat, r: int) {
    i < |s| && i < |t| && s[..i] == t[..i] && s[i] != t[i] && r == s[i] as int - t[i] as int
  }

  lemma NotPrefix(s: seq<Byte>, t: seq<Byte>, i: nat, r: int)
    requires DifferBy(s, t, i, r)
    ensures r != 0 && !(t <= s)
  {}

  /** Zero exactly when the first len bytes agree, and else the difference of the first bytes that do not. */
  method CompareMem(single: seq<Byte>, multi: seq<Byte>, from: nat, len: nat, ghost xs: seq<Node>, ghost ys: seq<Node>)
      returns (r: int)
    requires SingleAt(single, xs) && AllEncodable(ys) && NoEnds(ys)
    requires from + len <= |multi| && multi[from..from + len] == EncodeAll(ys)
    ensures r == 0 <==> ys <= xs
    ensures r != 0 ==>
      exists i: nat :: && i < |single| && i < len && single[..i] == multi[from..from + i]
                       && single[i] != multi[from + i] && r == single[i] as int - multi[from + i] as int
  {
    hide EncodeAll, SingleAt, NoEnds, AllEncodable;
    ghost var e := EncodeAll(ys);
    PrefixBytes(single, xs, ys);
    assert forall k | 0 <= k < len :: e[k] == multi[from..from + len][k];
    var i := 0;
    while i < len
      invariant 0 <= i <= len && i <= |single|
      invariant e[..i] == single[..i]
    {
      StaysInside(single, xs, ys, i);
      assert multi[from + i] == e[i];
      if single[i] != multi[from + i] {
        r := single[i] as int - multi[from + i] as int;
        NotPrefix(single, EncodeAll(ys), i, r);
        assert multi[from..from + i] == multi[from..from + len][..i];
        return;
      }
      i := i + 1;
    }
    assert e[..len] == e;
    r := 0;
  }

  /** One pass of the loop over the instances of Multi. */
  method MatchInstance(multi: seq<Byte>, path: Pointer, single: seq<Byte>, ghost ns: seq<Node>, ghost xs: seq<Node>)
      returns (hit: bool, next: Pointer, ghost rest: seq<Node>)
    requires path.At? && WellFormed(ns) && PathAt(multi, path.offset, ns) && SingleAt(single, xs)
    ensures Walked(ns) != [] && (hit <==> Walked(ns)[0] <= xs)
    ensures Walked(ns)[1..] == Walked(rest) && |rest| < |ns|
    ensures if next.At? then WellFormed(rest) && PathAt(multi, next.offset, rest) else rest == []
  {
    var inst, size;
    ghost var piece;
    inst, next, size, piece, rest := TakeInstance(multi, path, ns);
    var diff := CompareMem(single, multi, inst, size, xs, piece);
    hit := diff == 0;
    assert ([piece] + Walked(rest))[1..] == Walked(rest);
  }

  /** True exactly when the nodes of some instance of Multi, as walked, begin the
      first instance of Single. */
  method LibMatchDevicePaths(multi: Path, single: Path, ghost ns: seq<Node>, ghost xs: seq<Node>) returns (r: bool)
    requires multi.Path? ==> WellFormed(ns) && PathAt(multi.mem, 0, ns)
    requires single.Path? ==> SingleAt(single.mem, xs)
    ensures r <==> multi.Path? && single.Path? && exists i | 0 <= i < |Walked(ns)| :: Walked(ns)[i] <= xs
  {
    if multi.NoPath? || single.NoPath? {
      return false;
    }
    var devicePath: Pointer := At(0);
    ghost var all, rest, k := Walked(ns), ns, 0;
    while devicePath.At?
      invariant 0 <= k <= |all| && all[k..] == Walked(rest)
      invariant if devicePath.At? then WellFormed(rest) && PathAt(multi.mem, devicePath.offset, rest) else rest == []
      invariant forall i | 0 <= i < k :: !(all[i] <= xs)
      decreases |rest|
    {
      assert all[k + 1..] == all[k..][1..] && all[k] == all[k..][0];
      var hit;
      hit, devicePath, rest := MatchInstance(multi.mem, devicePath, single.mem, rest, xs);
      if hit {
        return true;
      }
      k := k + 1;
    }
    r := false;
  }
}
