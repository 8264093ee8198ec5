// Circular doubly linked lists kept in Flink and Blink words, and the conversion of their pointers.

module Links {
  type Address = nat

  /** The Flink and the Blink word of every list entry, by the entry's address. */
  datatype Links = Links(flink: Address -> Address, blink: Address -> Address)

  function Set(words: Address -> Address, at: Address, value: Address): Address -> Address {
    (a: Address) => if a == at then value else words(a)
  }

  // ---- Rings ----

  /** The position behind `i` in a ring of `n` entries. */
  function Succ(i: nat, n: nat): nat {
    if i + 1 < n then i + 1 else 0
  }

  predicate Distinct(c: seq<Address>) {
    forall i, j :: 0 <= i < j < |c| ==> c[i] != c[j]
  }

  /** Entry `i` of the ring and the entry behind it point at each other. */
  predicate Linked(m: Links, c: seq<Address>, i: nat)
    requires i < |c|
  {
    m.flink(c[i]) == c[Succ(i, |c|)] && m.blink(c[Succ(i, |c|)]) == c[i]
  }

  /** The entries of `c`, in this order, form one ring in both directions. */
  predicate IsRing(m: Links, c: seq<Address>) {
    c != [] && Distinct(c) && forall i :: 0 <= i < |c| ==> Linked(m, c, i)
  }

  /** `e` put behind entry `k`. */
  function InsertedAt(c: seq<Address>, k: nat, e: Address): seq<Address>
    requires k < |c|
  {
    c[..k + 1] + [e] + c[k + 1..]
  }

  function RemovedAt(c: seq<Address>, k: nat): seq<Address>
    requires k < |c|
  {
    c[..k] + c[k + 1..]
  }

  /** Only the words around the gap behind entry `k` change, and they take `e` in. */
  ghost predicate LinksIn(m: Links, after: Links, c: seq<Address>, k: nat, e: Address)
    requires k < |c|
  {
    && after.flink(c[k]) == e && after.flink(e) == c[Succ(k, |c|)]
    && after.blink(c[Succ(k, |c|)]) == e && after.blink(e) == c[k]
    && (forall a: Address :: a != c[k] && a != e ==> after.flink(a) == m.flink(a))
    && (forall a: Address :: a != c[Succ(k, |c|)] && a != e ==> after.blink(a) == m.blink(a))
  }

  lemma InsertDistinct(c: seq<Address>, k: nat, e: Address)
    requires Distinct(c) && k < |c| && e !in c
    ensures Distinct(InsertedAt(c, k, e))
  {
  }

  lemma InsertLinked(m: Links, after: Links, c: seq<Address>, k: nat, e: Address, i: nat)
    requires IsRing(m, c) && k < |c| && e !in c && LinksIn(m, after, c, k, e) && i <= |c|
    ensures Linked(after, InsertedAt(c, k, e), i)
  {
    var d := InsertedAt(c, k, e);
    assert d[k + 1] == e;
    if i < k {
      assert Linked(m, c, i);
    } else if i == k {
      assert d[k] == c[k];
    } else if i > k + 1 {
      assert Linked(m, c, i - 1);
      assert d[i] == c[i - 1];
      assert Succ(i, |d|) == 0 || d[i + 1] == c[i];
    }
  }

  lemma InsertRing(m: Links, after: Links, c: seq<Address>, k: nat, e: Address)
    requires IsRing(m, c) && k < |c| && e !in c && LinksIn(m, after, c, k, e)
    ensures IsRing(after, InsertedAt(c, k, e))
  {
    InsertDistinct(c, k, e);
    forall i | 0 <= i < |c| + 1
      ensures Linked(after, InsertedAt(c, k, e), i)
    {
      InsertLinked(m, after, c, k, e, i);
    }
  }

  function Pred(i: nat, n: nat): nat {
    if i > 0 then i - 1 else if n > 0 then n - 1 else 0
  }

  /** Only the words around entry `k` change, and they leave it out. */
  ghost predicate LinksOut(m: Links, after: Links, c: seq<Address>, k: nat)
    requires k < |c|
  {
    var p, q := c[Pred(k, |c|)], c[Succ(k, |c|)];
    && after.flink(p) == q && after.blink(q) == p
    && (forall a: Address :: a != p ==> after.flink(a) == m.flink(a))
    && (forall a: Address :: a != q ==> after.blink(a) == m.blink(a))
  }

  lemma RemoveDistinct(c: seq<Address>, k: nat)
    requires Distinct(c) && k < |c|
    ensures Distinct(RemovedAt(c, k)) && c[k] !in RemovedAt(c, k)
    ensures forall a :: a in RemovedAt(c, k) <==> a in c && a != c[k]
  {
    var d := RemovedAt(c, k);
    forall a | a in c && a != c[k]
      ensures a in d
    {
      var i :| 0 <= i < |c| && c[i] == a;
      assert d[if i < k then i else i - 1] == a;
    }
  }

  lemma RemoveLinked(m: Links, after: Links, c: seq<Address>, k: nat, i: nat)
    requires IsRing(m, c) && k < |c| && LinksOut(m, after, c, k) && i + 1 < |c|
    ensures Linked(after, RemovedAt(c, k), i)
  {
    var d := RemovedAt(c, k);
    if i + 1 < k {
      assert Linked(m, c, i);
    } else if i + 1 == k {
      assert d[Succ(i, |d|)] == c[Succ(k, |c|)];
    } else {
      assert d[i] == c[i + 1];
      if i + 2 < |c| {
        assert Linked(m, c, i + 1);
        assert d[i + 1] == c[i + 2];
      } else if k > 0 {
        assert Linked(m, c, i + 1);
      }
    }
  }

  lemma RemoveRing(m: Links, after: Links, c: seq<Address>, k: nat)
    requires IsRing(m, c) && k < |c| && |c| >= 2 && LinksOut(m, after, c, k)
    ensures IsRing(after, RemovedAt(c, k))
  {
    RemoveDistinct(c, k);
    forall i | 0 <= i < |c| - 1
      ensures Linked(after, RemovedAt(c, k), i)
    {
      RemoveLinked(m, after, c, k, i);
    }
  }

  // ---- The list macros ----

  function Initialized(m: Links, head: Address): Links {
    Links(Set(m.flink, head, head), Set(m.blink, head, head))
  }

  function HeadInserted(m: Links, head: Address, e: Address): Links {
    var next := m.flink(head);
    Links(Set(Set(m.flink, e, next), head, e), Set(Set(m.blink, e, head), next, e))
  }

  function TailInserted(m: Links, head: Address, e: Address): Links {
    var last := m.blink(head);
    Links(Set(Set(m.flink, e, head), last, e), Set(Set(m.blink, e, last), head, e))
  }

  function Removed(m: Links, e: Address): Links {
    var next, previous := m.flink(e), m.blink(e);
    Links(Set(m.flink, previous, next), Set(m.blink, next, previous))
  }

  /** `moved` taken out and linked in front of `entry`, with every link read beforehand. */
  function Swapped(m: Links, entry: Address, moved: Address): Links {
    var next, previous, front := m.flink(moved), m.blink(moved), m.blink(entry);
    Links(Set(Set(Set(m.flink, previous, next), moved, entry), front, moved),
          Set(Set(Set(m.blink, next, previous), moved, front), entry, moved))
  }

  lemma InitializedRing(m: Links, head: Address)
    ensures IsRing(Initialized(m, head), [head])
  {
  }

  lemma HeadInsertedRing(m: Links, c: seq<Address>, e: Address)
    requires IsRing(m, c) && e !in c
    ensures IsRing(HeadInserted(m, c[0], e), InsertedAt(c, 0, e))
  {
    assert Linked(m, c, 0);
    InsertRing(m, HeadInserted(m, c[0], e), c, 0, e);
  }

  lemma LastLinked(m: Links, c: seq<Address>)
    requires IsRing(m, c)
    ensures m.blink(c[0]) == c[|c| - 1]
  {
    assert Linked(m, c, |c| - 1);
  }

  lemma TailInsertedRing(m: Links, c: seq<Address>, e: Address)
    requires IsRing(m, c) && e !in c
    ensures IsRing(TailInserted(m, c[0], e), c + [e])
  {
    LastLinked(m, c);
    InsertRing(m, TailInserted(m, c[0], e), c, |c| - 1, e);
    assert InsertedAt(c, |c| - 1, e) == c + [e];
  }

  /** The neighbours that the words of entry `k` name. */
  lemma Neighbours(m: Links, c: seq<Address>, k: nat)
    requires IsRing(m, c) && k < |c|
    ensures m.flink(c[k]) == c[Succ(k, |c|)] && m.blink(c[k]) == c[Pred(k, |c|)]
  {
    assert Linked(m, c, k);
    assert Linked(m, c, Pred(k, |c|));
  }

  lemma RemovedRing(m: Links, c: seq<Address>, k: nat)
    requires IsRing(m, c) && k < |c| && |c| >= 2
    ensures IsRing(Removed(m, c[k]), RemovedAt(c, k))
  {
    Neighbours(m, c, k);
    RemoveRing(m, Removed(m, c[k]), c, k);
  }

  /**
   * When `moved` is not already in front of `entry`, swapping is removing `moved` and linking it in behind the
   * entry that stood in front of `entry`.
   */
  lemma SwappedRing(m: Links, c: seq<Address>, k: nat, entry: Address, j: nat)
    requires IsRing(m, c) && k < |c| && entry in c && entry != c[k] && m.flink(c[k]) != entry
    requires var d := RemovedAt(c, k); j < |d| && d[Succ(j, |d|)] == entry
    ensures IsRing(Swapped(m, entry, c[k]), InsertedAt(RemovedAt(c, k), j, c[k]))
  {
    var moved, d, middle := c[k], RemovedAt(c, k), Removed(m, c[k]);
    assert |c| >= 2;
    RemovedRing(m, c, k);
    RemoveDistinct(c, k);
    assert Linked(middle, d, j);
    InsertRing(middle, Swapped(m, entry, moved), d, j, moved);
  }

  lemma SelfLinkBreaks(m: Links, d: seq<Address>, e: Address)
    requires e in d && |d| >= 2 && m.flink(e) == e
    ensures !IsRing(m, d)
  {
    var i :| 0 <= i < |d| && d[i] == e;
    if Distinct(d) {
      assert d[Succ(i, |d|)] != d[i];
      assert !Linked(m, d, i);
    }
  }

  /** Swapping an entry with itself or with the entry just in front of it cuts the entry off. */
  lemma SwappedBreaks(m: Links, c: seq<Address>, k: nat, entry: Address)
    requires IsRing(m, c) && k < |c| && |c| >= 2 && (entry == c[k] || m.flink(c[k]) == entry)
    ensures Swapped(m, entry, c[k]).flink(c[k]) == c[k]
  {
    Neighbours(m, c, k);
    Neighbours(m, c, Succ(k, |c|));
  }

  function Position(c: seq<Address>, e: Address): (k: nat)
    requires e in c
    ensures k < |c| && c[k] == e
  {
    if c[0] == e then 0 else 1 + Position(c[1..], e)
  }

  /** `moved` placed in front of `entry`; in front of the first entry means last in the ring. */
  function MovedBefore(c: seq<Address>, entry: Address, moved: Address): seq<Address>
    requires entry in c && moved in c && entry != moved && Distinct(c)
  {
    var d := RemovedAt(c, Position(c, moved));
    RemoveDistinct(c, Position(c, moved));
    InsertedAt(d, Pred(Position(d, entry), |d|), moved)
  }

  lemma SwapKeepsRing(m: Links, c: seq<Address>, entry: Address, moved: Address)
    requires IsRing(m, c) && entry in c && moved in c && entry != moved && m.flink(moved) != entry
    ensures IsRing(Swapped(m, entry, moved), MovedBefore(c, entry, moved))
  {
    var k := Position(c, moved);
    RemoveDistinct(c, k);
    var d := RemovedAt(c, k);
    SwappedRing(m, c, k, entry, Pred(Position(d, entry), |d|));
  }

  /** In the ring after a swap the moved entry stands right in front of the other, and the rest is in its old order. */
  lemma MovedOrder(c: seq<Address>, entry: Address, moved: Address)
    requires entry in c && moved in c && entry != moved && Distinct(c)
    ensures var d := MovedBefore(c, entry, moved);
      && moved in d && d[Succ(Position(d, moved), |d|)] == entry
      && RemovedAt(d, Position(d, moved)) == RemovedAt(c, Position(c, moved))
  {
    hide InsertedAt, RemovedAt, Position, Distinct;
    var k := Position(c, moved);
    RemoveDistinct(c, k);
    var r := RemovedAt(c, k);
    InsertedOrder(r, Pred(Position(r, entry), |r|), moved);
  }

  lemma InsertedOrder(r: seq<Address>, j: nat, e: Address)
    requires j < |r| && e !in r && Distinct(r)
    ensures var d := InsertedAt(r, j, e);
      e in d && Position(d, e) == j + 1 && d[Succ(j + 1, |d|)] == r[Succ(j, |r|)] && RemovedAt(d, j + 1) == r
  {
    var d := InsertedAt(r, j, e);
    InsertDistinct(r, j, e);
    assert d[j + 1] == e;
    OnlyPosition(d, j + 1);
    hide Position, Distinct;
    assert RemovedAt(d, j + 1) == r;
  }

  lemma OnlyPosition(c: seq<Address>, k: nat)
    requires Distinct(c) && k < |c|
    ensures c[k] in c && Position(c, c[k]) == k
  {
    hide Position;
  }

  lemma RemovedMultiset(c: seq<Address>, k: nat)
    requires k < |c|
    ensures multiset(c) == multiset(RemovedAt(c, k)) + multiset{c[k]}
  {
    assert c == c[..k] + [c[k]] + c[k + 1..];
  }

  lemma InsertedMultiset(c: seq<Address>, k: nat, e: Address)
    requires k < |c|
    ensures multiset(InsertedAt(c, k, e)) == multiset(c) + multiset{e}
  {
    assert c == c[..k + 1] + c[k + 1..];
  }

  /** Some ring runs through exactly the entries of `c`. */
  ghost predicate RingThrough(m: Links, c: seq<Address>) {
    exists d: seq<Address> :: IsRing(m, d) && multiset(d) == multiset(c)
  }

  /** Swapping leaves a ring of the same entries exactly when the entries differ and `moved` is not just in front. */
  lemma SwapExact(m: Links, c: seq<Address>, entry: Address, moved: Address)
    requires IsRing(m, c) && entry in c && moved in c && |c| >= 2
    ensures RingThrough(Swapped(m, entry, moved), c) <==> entry != moved && m.flink(moved) != entry
  {
    var k, after := Position(c, moved), Swapped(m, entry, moved);
    if entry != moved && m.flink(moved) != entry {
      SwapKeepsRing(m, c, entry, moved);
      RemoveDistinct(c, k);
      RemovedMultiset(c, k);
      var d := RemovedAt(c, k);
      InsertedMultiset(d, Pred(Position(d, entry), |d|), moved);
      assert multiset(MovedBefore(c, entry, moved)) == multiset(c);
    } else {
      SwappedBreaks(m, c, k, entry);
      forall d: seq<Address> | multiset(d) == multiset(c)
        ensures !IsRing(after, d)
      {
        assert |multiset(d)| == |d| && |multiset(c)| == |c|;
        assert moved in multiset(c);
        SelfLinkBreaks(after, d, moved);
      }
    }
  }

  /** In a ring of two entries, each is just in front of the other, and swapping them breaks the ring. */
  lemma SwapInPairBreaks(m: Links)
    ensures var pair := TailInserted(Initialized(m, 1), 1, 2);
      IsRing(pair, [1, 2]) && !RingThrough(Swapped(pair, 1, 2), [1, 2])
  {
    var head, pair := Initialized(m, 1), TailInserted(Initialized(m, 1), 1, 2);
    InitializedRing(m, 1);
    TailInsertedRing(head, [1], 2);
    assert [1] + [2] == [1, 2];
    assert Linked(pair, [1, 2], 1);
    SwapExact(pair, [1, 2], 1, 2);
  }

  // ---- Runs ----

  datatype Operation =
    | InsertHead(entry: Address)
    | InsertTail(entry: Address)
    | Remove(entry: Address)
    | Swap(entry: Address, moved: Address)

  /** What a caller may do to a list: insert new entries, remove or move entries of the list. */
  predicate Allowed(c: seq<Address>, op: Operation)
    requires c != []
  {
    match op
    case InsertHead(e) => e !in c
    case InsertTail(e) => e !in c
    case Remove(e) => e in c[1..]
    case Swap(e, moved) => e in c && moved in c[1..] && e != moved && c[Succ(Position(c, moved), |c|)] != e
  }

  function Performed(m: Links, head: Address, op: Operation): Links {
    match op
    case InsertHead(e) => HeadInserted(m, head, e)
    case InsertTail(e) => TailInserted(m, head, e)
    case Remove(e) => Removed(m, e)
    case Swap(e, moved) => Swapped(m, e, moved)
  }

  function Expected(c: seq<Address>, op: Operation): seq<Address>
    requires c != [] && Distinct(c) && Allowed(c, op)
  {
    match op
    case InsertHead(e) => [c[0], e] + c[1..]
    case InsertTail(e) => c + [e]
    case Remove(e) => RemovedAt(c, Position(c, e))
    case Swap(e, moved) => MovedBefore(c, e, moved)
  }

  /** One allowed operation turns the ring of a list into the ring of the list it should give, head first. */
  lemma StepRing(m: Links, c: seq<Address>, op: Operation)
    requires IsRing(m, c) && Allowed(c, op)
    ensures IsRing(Performed(m, c[0], op), Expected(c, op)) && Expected(c, op)[0] == c[0]
  {
    match op {
      case InsertHead(e) =>
        HeadInsertedRing(m, c, e);
        assert InsertedAt(c, 0, e) == [c[0], e] + c[1..];
      case InsertTail(e) =>
        TailInsertedRing(m, c, e);
      case Remove(e) =>
        LaterPosition(c, e);
        RemovedRing(m, c, Position(c, e));
      case Swap(e, moved) =>
        LaterPosition(c, moved);
        Neighbours(m, c, Position(c, moved));
        RemoveDistinct(c, Position(c, moved));
        SwapKeepsRing(m, c, e, moved);
    }
  }

  lemma LaterPosition(c: seq<Address>, e: Address)
    requires c != [] && Distinct(c) && e in c[1..]
    ensures e in c && Position(c, e) > 0
  {
  }

  ghost predicate AllAllowed(c: seq<Address>, ops: seq<Operation>)
    requires c != [] && Distinct(c)
    decreases |ops|
  {
    ops == [] ||
    (Allowed(c, ops[0]) && Expected(c, ops[0]) != [] && Distinct(Expected(c, ops[0])) &&
     AllAllowed(Expected(c, ops[0]), ops[1..]))
  }

  function Run(m: Links, head: Address, ops: seq<Operation>): Links
    decreases |ops|
  {
    if ops == [] then m else Run(Performed(m, head, ops[0]), head, ops[1..])
  }

  ghost function Result(c: seq<Address>, ops: seq<Operation>): seq<Address>
    requires c != [] && Distinct(c) && AllAllowed(c, ops)
    decreases |ops|
  {
    if ops == [] then c else Result(Expected(c, ops[0]), ops[1..])
  }

  /** After every run of allowed operations the words form the ring of the abstract list. */
  lemma {:induction false} RunRing(m: Links, c: seq<Address>, ops: seq<Operation>)
    requires IsRing(m, c) && AllAllowed(c, ops)
    ensures IsRing(Run(m, c[0], ops), Result(c, ops)) && Result(c, ops)[0] == c[0]
    decreases |ops|
  {
    if ops != [] {
      StepRing(m, c, ops[0]);
      RunRing(Performed(m, c[0], ops[0]), Expected(c, ops[0]), ops[1..]);
    }
  }

  lemma RunFromInitialize(m: Links, head: Address, ops: seq<Operation>)
    requires AllAllowed([head], ops)
    ensures IsRing(Run(Initialized(m, head), head, ops), Result([head], ops)) && Result([head], ops)[0] == head
  {
    InitializedRing(m, head);
    RunRing(Initialized(m, head), [head], ops);
  }

  // ---- Walks ----

  function Forward(m: Links, a: Address, n: nat): seq<Address>
    decreases n
  {
    if n == 0 then [] else [a] + Forward(m, m.flink(a), n - 1)
  }

  function Backward(m: Links, a: Address, n: nat): seq<Address>
    decreases n
  {
    if n == 0 then [] else [a] + Backward(m, m.blink(a), n - 1)
  }

  function Reversed(s: seq<Address>): seq<Address> {
    if s == [] then [] else Reversed(s[1..]) + [s[0]]
  }

  lemma {:induction false} ForwardFrom(m: Links, c: seq<Address>, i: nat)
    requires IsRing(m, c) && i < |c|
    ensures Forward(m, c[i], |c| - i) == c[i..]
    decreases |c| - i
  {
    assert Linked(m, c, i);
    if i + 1 < |c| {
      ForwardFrom(m, c, i + 1);
    }
  }

  lemma {:induction false} BackwardFrom(m: Links, c: seq<Address>, i: nat)
    requires IsRing(m, c) && i < |c|
    ensures Backward(m, c[i], i) == Reversed(c[1..i + 1])
    decreases i
  {
    if i > 0 {
      Neighbours(m, c, i);
      BackwardFrom(m, c, i - 1);
      ReversedLast(c[1..i], c[i]);
      assert c[1..i + 1] == c[1..i] + [c[i]];
    }
  }

  lemma {:induction false} ReversedLast(s: seq<Address>, e: Address)
    ensures Reversed(s + [e]) == [e] + Reversed(s)
  {
    if s != [] {
      assert (s + [e])[1..] == s[1..] + [e];
      ReversedLast(s[1..], e);
    }
  }

  /** From the head, the forward walk is the list and the backward walk is the list reversed; both come home. */
  lemma Walks(m: Links, c: seq<Address>)
    requires IsRing(m, c)
    ensures Forward(m, m.flink(c[0]), |c| - 1) == c[1..]
    ensures Backward(m, m.blink(c[0]), |c| - 1) == Reversed(c[1..])
    ensures m.flink(c[|c| - 1]) == c[0] && m.blink(c[Succ(0, |c|)]) == c[0]
  {
    assert Linked(m, c, 0);
    assert Linked(m, c, |c| - 1);
    if |c| > 1 {
      ForwardFrom(m, c, 1);
      BackwardFrom(m, c, |c| - 1);
      assert c[1..|c|] == c[1..];
    }
  }

  // ---- The macros on memory ----

  class LinkMemory {
    var flink: Address -> Address
    var blink: Address -> Address

    ghost function Words(): Links
      reads this
    {
      Links(flink, blink)
    }

    method InitializeListHead(head: Address)
      modifies this
      ensures Words() == Initialized(old(Words()), head) && IsRing(Words(), [head])
    {
      flink := Set(flink, head, head);
      blink := Set(blink, head, head);
      InitializedRing(old(Words()), head);
    }

    method IsListEmpty(head: Address, ghost c: seq<Address>) returns (empty: bool)
      requires IsRing(Words(), c) && c[0] == head
      ensures empty <==> c == [head]
    {
      assert Linked(Words(), c, 0);
      empty := flink(head) == head;
    }

    method InsertHeadList(head: Address, e: Address, ghost c: seq<Address>)
      requires IsRing(Words(), c) && c[0] == head && Allowed(c, InsertHead(e))
      modifies this
      ensures Words() == Performed(old(Words()), head, InsertHead(e)) && IsRing(Words(), Expected(c, InsertHead(e)))
    {
      var next := flink(head);
      flink := Set(flink, e, next);
      blink := Set(blink, e, head);
      blink := Set(blink, next, e);
      flink := Set(flink, head, e);
      StepRing(old(Words()), c, InsertHead(e));
    }

    method InsertTailList(head: Address, e: Address, ghost c: seq<Address>)
      requires IsRing(Words(), c) && c[0] == head && Allowed(c, InsertTail(e))
      modifies this
      ensures Words() == Performed(old(Words()), head, InsertTail(e)) && IsRing(Words(), Expected(c, InsertTail(e)))
    {
      var last := blink(head);
      flink := Set(flink, e, head);
      blink := Set(blink, e, last);
      flink := Set(flink, last, e);
      blink := Set(blink, head, e);
      StepRing(old(Words()), c, InsertTail(e));
    }

    method RemoveEntryList(e: Address, ghost c: seq<Address>)
      requires IsRing(Words(), c) && Allowed(c, Remove(e))
      modifies this
      ensures Words() == Performed(old(Words()), c[0], Remove(e)) && IsRing(Words(), Expected(c, Remove(e)))
    {
      var next := flink(e);
      var previous := blink(e);
      flink := Set(flink, previous, next);
      blink := Set(blink, next, previous);
      StepRing(old(Words()), c, Remove(e));
    }

    method SwapListEntries(e: Address, moved: Address, ghost c: seq<Address>)
      requires IsRing(Words(), c)
      modifies this
      ensures Words() == Swapped(old(Words()), e, moved)
      ensures Allowed(c, Swap(e, moved)) ==> IsRing(Words(), Expected(c, Swap(e, moved)))
      ensures Allowed(c, Swap(e, moved)) ==> flink(moved) == e && blink(e) == moved
    {
      var movedNext := flink(moved);
      var movedPrevious := blink(moved);
      var front := blink(e);
      flink := Set(flink, movedPrevious, movedNext);
      blink := Set(blink, movedNext, movedPrevious);
      flink := Set(flink, moved, e);
      blink := Set(blink, moved, front);
      flink := Set(flink, front, moved);
      blink := Set(blink, e, moved);
      if Allowed(c, Swap(e, moved)) {
        StepRing(old(Words()), c, Swap(e, moved));
        MovedOrder(c, e, moved);
        ghost var d := MovedBefore(c, e, moved);
        assert Linked(Words(), d, Position(d, moved));
      }
    }

    /**
     * Converts every Flink and Blink word of a list. `convert` stands for the firmware's pointer conversion, and
     * `calls` for the words it was called on, in order.
     */
    method RtConvertList(convert: (nat, Address) -> Address, disposition: nat, head: Address, ghost c: seq<Address>)
        returns (ghost calls: seq<Word>)
      requires IsRing(Words(), c) && c[0] == head
      modifies this
      ensures calls == WordsOf(c)
      ensures |calls| == 2 * |c| && forall i :: 0 <= i < |c| ==> calls[2 * i] == FlinkOf(c[i])
      ensures forall i :: 0 <= i < |c| ==> calls[2 * i + 1] == BlinkOf(c[i])
      ensures ConvertedTo(old(Words()), Words(), convert, disposition, c, |c|)
      ensures forall i :: 0 <= i < |c| ==>
        var next, previous := old(flink)(c[i]), old(blink)(c[i]);
        && flink(c[i]) == (if next == head then convert(disposition, next) else convert(0, next))
        && blink(c[i]) == (if previous == head then convert(disposition, previous) else convert(0, previous))
      ensures forall a: Address :: a !in c ==> flink(a) == old(flink)(a) && blink(a) == old(blink)(a)
    {
      ghost var start, i := Words(), 0;
      calls := [];
      var link := head;
      while true
        invariant 0 <= i < |c| && link == c[i] && calls == WordsOf(c[..i])
        invariant ConvertedTo(start, Words(), convert, disposition, c, i)
        decreases |c| - i
      {
        Neighbours(start, c, i);
        ghost var before := Words();
        var nextLink := flink(link);
        flink := Set(flink, link, convert(if flink(link) == head then disposition else 0, flink(link)));
        calls := calls + [FlinkOf(link)];
        blink := Set(blink, link, convert(if blink(link) == head then disposition else 0, blink(link)));
        calls := calls + [BlinkOf(link)];
        ConvertedNext(start, before, Words(), convert, disposition, c, i);
        WordsOfNext(c, i);
        i := i + 1;
        link := nextLink;
        if link == head {
          break;
        }
      }
      assert c[..|c|] == c;
      WordsInOrder(c);
      ConvertedEach(start, Words(), convert, disposition, c);
    }
  }

  // ---- Converting a list ----

  /** A word of an entry. */
  datatype Word = FlinkOf(entry: Address) | BlinkOf(entry: Address)

  function WordsOf(c: seq<Address>): seq<Word> {
    if c == [] then [] else WordsOf(c[..|c| - 1]) + [FlinkOf(c[|c| - 1]), BlinkOf(c[|c| - 1])]
  }

  /** For each entry in turn its Flink and then its Blink. */
  lemma {:induction false} WordsInOrder(c: seq<Address>)
    ensures |WordsOf(c)| == 2 * |c|
    ensures forall i :: 0 <= i < |c| ==> WordsOf(c)[2 * i] == FlinkOf(c[i])
    ensures forall i :: 0 <= i < |c| ==> WordsOf(c)[2 * i + 1] == BlinkOf(c[i])
  {
    if c != [] {
      WordsInOrder(c[..|c| - 1]);
    }
  }

  lemma ConvertedEach(m: Links, after: Links, convert: (nat, Address) -> Address, d: nat, c: seq<Address>)
    requires IsRing(m, c) && ConvertedTo(m, after, convert, d, c, |c|)
    ensures forall i :: 0 <= i < |c| ==>
      var next, previous := m.flink(c[i]), m.blink(c[i]);
      && after.flink(c[i]) == (if next == c[0] then convert(d, next) else convert(0, next))
      && after.blink(c[i]) == (if previous == c[0] then convert(d, previous) else convert(0, previous))
    ensures forall a: Address :: a !in c ==> after.flink(a) == m.flink(a) && after.blink(a) == m.blink(a)
  {
    assert c[..|c|] == c;
    forall i | 0 <= i < |c|
      ensures m.flink(c[i]) == c[Succ(i, |c|)] && m.blink(c[i]) == c[Pred(i, |c|)]
    {
      Neighbours(m, c, i);
    }
  }

  lemma WordsOfNext(c: seq<Address>, i: nat)
    requires i < |c|
    ensures WordsOf(c[..i + 1]) == WordsOf(c[..i]) + [FlinkOf(c[i])] + [BlinkOf(c[i])]
  {
    assert c[..i + 1][..i] == c[..i];
  }

  function Disposition(target: Address, head: Address, disposition: nat): nat {
    if target == head then disposition else 0
  }

  /** The first `n` entries hold their neighbours converted; every other word is as before. */
  ghost predicate ConvertedTo(m: Links, after: Links, convert: (nat, Address) -> Address, d: nat, c: seq<Address>,
                              n: nat)
    requires c != [] && n <= |c|
  {
    && (forall i :: 0 <= i < n ==>
          after.flink(c[i]) == convert(Disposition(c[Succ(i, |c|)], c[0], d), c[Succ(i, |c|)]) &&
          after.blink(c[i]) == convert(Disposition(c[Pred(i, |c|)], c[0], d), c[Pred(i, |c|)]))
    && (forall a: Address :: a !in c[..n] ==> after.flink(a) == m.flink(a) && after.blink(a) == m.blink(a))
  }

  lemma ConvertedNext(m: Links, before: Links, after: Links, convert: (nat, Address) -> Address, d: nat,
                      c: seq<Address>, n: nat)
    requires IsRing(m, c) && n < |c| && ConvertedTo(m, before, convert, d, c, n)
    requires forall a: Address :: a != c[n] ==> after.flink(a) == before.flink(a) && after.blink(a) == before.blink(a)
    requires after.flink(c[n]) == convert(Disposition(before.flink(c[n]), c[0], d), before.flink(c[n]))
    requires after.blink(c[n]) == convert(Disposition(before.blink(c[n]), c[0], d), before.blink(c[n]))
    ensures ConvertedTo(m, after, convert, d, c, n + 1)
  {
    Neighbours(m, c, n);
    assert c[..n + 1] == c[..n] + [c[n]];
    assert c[n] !in c[..n];
  }

  /** The words of a ring: both words of each entry once, and no other word. */
  lemma {:induction false} WordsOnce(c: seq<Address>, w: Word)
    requires Distinct(c)
    ensures multiset(WordsOf(c))[w] == if w.entry in c then 1 else 0
  {
    if c != [] {
      var init, last := c[..|c| - 1], c[|c| - 1];
      WordsOnce(init, w);
      assert c == init + [last];
      assert last !in init;
    }
  }

  function Relocated(relocate: Address -> Address, c: seq<Address>): seq<Address> {
    seq(|c|, i requires 0 <= i < |c| => relocate(c[i]))
  }

  /**
   * When conversion gives each entry the address it moves to, the converted list, moved there, is a ring of the
   * moved entries in the same order.
   */
  lemma ConvertedRing(m: Links, after: Links, convert: (nat, Address) -> Address, d: nat, c: seq<Address>,
                      relocate: Address -> Address, moved: Links)
    requires IsRing(m, c) && ConvertedTo(m, after, convert, d, c, |c|)
    requires forall a, x :: a in c && (x == 0 || x == d) ==> convert(x, a) == relocate(a)
    requires Distinct(Relocated(relocate, c))
    requires forall a :: a in c ==>
      moved.flink(relocate(a)) == after.flink(a) && moved.blink(relocate(a)) == after.blink(a)
    ensures IsRing(moved, Relocated(relocate, c))
  {
    var r := Relocated(relocate, c);
    forall i | 0 <= i < |r|
      ensures Linked(moved, r, i)
    {
      var next := Succ(i, |c|);
      assert c[i] in c && c[next] in c;
      assert after.flink(c[i]) == relocate(c[next]);
      assert Pred(next, |c|) == i;
      assert after.blink(c[next]) == relocate(c[i]);
    }
  }
}
