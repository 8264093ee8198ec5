// Installing a list of protocol interfaces on one handle as a single transaction over the handle database.

module Protocols {
  type Handle = nat
  const NULL: Handle := 0

  const TPL_NOTIFY := 16

  type Guid = int
  type Interface = int
  datatype Pair = Pair(guid: Guid, interface: Interface)

  datatype Status = Success | InvalidParameter | NotFound | OutOfResources

  type Protocols = map<Guid, Interface>
  type Database = map<Handle, Protocols>

  // ---- The handle database ----

  /** The protocols on a handle; none on a handle that does not exist. */
  function On(db: Database, h: Handle): Protocols {
    if h in db then db[h] else map[]
  }

  /** The database with exactly `p` on handle `h`; a handle without protocols does not exist. */
  function With(db: Database, h: Handle, p: Protocols): Database {
    if p == map[] then db - {h} else db[h := p]
  }

  /** No NULL handle, and every handle carries a protocol. */
  predicate Consistent(db: Database) {
    NULL !in db && forall h :: h in db ==> db[h] != map[]
  }

  lemma WithOn(db: Database, h: Handle)
    requires Consistent(db)
    ensures With(db, h, On(db, h)) == db
  {
  }

  lemma OnWith(db: Database, h: Handle, p: Protocols)
    ensures On(With(db, h, p), h) == p
    ensures forall other :: other != h ==> On(With(db, h, p), other) == On(db, other)
  {
  }

  lemma WithWith(db: Database, h: Handle, p: Protocols, q: Protocols)
    ensures With(With(db, h, p), h, q) == With(db, h, q)
  {
  }

  // ---- Lists of pairs ----

  predicate DistinctGuids(pairs: seq<Pair>) {
    forall i, j :: 0 <= i < j < |pairs| ==> pairs[i].guid != pairs[j].guid
  }

  predicate Absent(p: Protocols, pairs: seq<Pair>) {
    forall i :: 0 <= i < |pairs| ==> pairs[i].guid !in p
  }

  /** The protocols `p` with every pair added. */
  function Added(p: Protocols, pairs: seq<Pair>): Protocols {
    if pairs == [] then p
    else Added(p, pairs[..|pairs| - 1])[pairs[|pairs| - 1].guid := pairs[|pairs| - 1].interface]
  }

  lemma AddedNext(p: Protocols, pairs: seq<Pair>, k: nat)
    requires k < |pairs|
    ensures Added(p, pairs[..k + 1]) == Added(p, pairs[..k])[pairs[k].guid := pairs[k].interface]
  {
    assert pairs[..k + 1][..k] == pairs[..k];
  }

  /** A guid is among the added protocols exactly when it was there or some pair brings it. */
  lemma {:induction false} AddedKeys(p: Protocols, pairs: seq<Pair>, g: Guid)
    ensures g in Added(p, pairs) <==> g in p || exists i :: 0 <= i < |pairs| && pairs[i].guid == g
  {
    if pairs != [] {
      AddedKeys(p, pairs[..|pairs| - 1], g);
      var last := |pairs| - 1;
      if exists i :: 0 <= i < |pairs| && pairs[i].guid == g {
        var i :| 0 <= i < |pairs| && pairs[i].guid == g;
        assert i < last ==> pairs[..last][i].guid == g;
      }
    }
  }

  lemma AddedUpTo(p: Protocols, pairs: seq<Pair>, k: nat, g: Guid)
    requires k <= |pairs|
    ensures g !in Added(p, pairs[..k]) <==> g !in p && forall i :: 0 <= i < k ==> pairs[i].guid != g
  {
    hide Added;
    AddedKeys(p, pairs[..k], g);
    if i :| 0 <= i < k && pairs[i].guid == g {
      assert pairs[..k][i].guid == g;
    }
  }

  /** Taking the first pair away leaves what the others add. */
  lemma {:induction false} RemoveFirst(p: Protocols, pairs: seq<Pair>)
    requires pairs != [] && DistinctGuids(pairs) && Absent(p, pairs)
    ensures Added(p, pairs) - {pairs[0].guid} == Added(p, pairs[1..])
    ensures pairs[0].guid in Added(p, pairs) && Added(p, pairs)[pairs[0].guid] == pairs[0].interface
  {
    var n := |pairs| - 1;
    if n == 0 {
      assert pairs[..0] == [];
    } else {
      RemoveFirst(p, pairs[..n]);
      assert pairs[..n][1..] == pairs[1..][..n - 1];
      assert pairs[1..][n - 1] == pairs[n];
    }
  }

  // ---- The transaction ----

  /** The handle the pairs go to: the given one, or the next new one for NULL. */
  function Target(handle: Handle, next: Handle): Handle {
    if handle == NULL then next else handle
  }

  /** Whether pair `k` can be installed behind the pairs in front of it. */
  predicate Fits(db: Database, handle: Handle, pairs: seq<Pair>, k: nat, starved: nat -> bool)
    requires k < |pairs|
  {
    && !starved(k)
    && (handle == NULL || handle in db)
    && pairs[k].guid !in On(db, handle)
    && forall i :: 0 <= i < k ==> pairs[i].guid != pairs[k].guid
  }

  /** Pair `k` is the first that cannot be installed. */
  predicate FirstMisfit(db: Database, handle: Handle, pairs: seq<Pair>, k: nat, starved: nat -> bool) {
    && k < |pairs| && !Fits(db, handle, pairs, k, starved)
    && forall i :: 0 <= i < k ==> Fits(db, handle, pairs, i, starved)
  }

  predicate Installable(db: Database, handle: Handle, pairs: seq<Pair>, starved: nat -> bool) {
    forall k :: 0 <= k < |pairs| ==> Fits(db, handle, pairs, k, starved)
  }

  lemma FittingPairs(db: Database, handle: Handle, pairs: seq<Pair>, n: nat, starved: nat -> bool)
    requires n <= |pairs| && forall k :: 0 <= k < n ==> Fits(db, handle, pairs, k, starved)
    ensures DistinctGuids(pairs[..n]) && Absent(On(db, handle), pairs[..n])
  {
    forall i, j | 0 <= i < j < n
      ensures pairs[i].guid != pairs[j].guid
    {
      assert Fits(db, handle, pairs, j, starved);
    }
    forall i | 0 <= i < n
      ensures pairs[i].guid !in On(db, handle)
    {
      assert Fits(db, handle, pairs, i, starved);
    }
  }

  class BootServices {
    var db: Database
    var tpl: nat
    var nextHandle: Handle

    /** Whether the database was ever changed below TPL_NOTIFY, where a notification could see it half done. */
    ghost var exposed: bool

    ghost predicate Valid()
      reads this
    {
      Consistent(db) && nextHandle != NULL && forall h :: h in db ==> h < nextHandle
    }

    method RaiseTPL(level: nat) returns (previous: nat)
      requires tpl <= level
      modifies this`tpl
      ensures previous == old(tpl) && tpl == level
    {
      previous := tpl;
      tpl := level;
    }

    method RestoreTPL(level: nat)
      requires level <= tpl
      modifies this`tpl
      ensures tpl == level
    {
      tpl := level;
    }

    /** The firmware's service for one interface; `starved` is a failed allocation. */
    method InstallProtocolInterface(handle: Handle, pair: Pair, starved: bool) returns (status: Status, h: Handle)
      requires Valid()
      modifies this`db, this`nextHandle, this`exposed
      ensures Valid() && old(nextHandle) <= nextHandle
      ensures exposed == (old(exposed) || tpl < 16)
      ensures status == Success <==>
              !starved && (handle == NULL || (handle in old(db) && pair.guid !in old(db)[handle]))
      ensures status == Success ==>
              h == Target(handle, old(nextHandle)) &&
              db == With(old(db), h, On(old(db), h)[pair.guid := pair.interface])
      ensures status != Success ==> h == handle && db == old(db)
      ensures status != Success ==> status == if starved then OutOfResources else InvalidParameter
    {
      h := handle;
      exposed := exposed || tpl < TPL_NOTIFY;
      if starved {
        return OutOfResources, h;
      }
      if handle == NULL {
        h := nextHandle;
        nextHandle := nextHandle + 1;
        var installed: Protocols := map[pair.guid := pair.interface];
        assert pair.guid in installed;
        assert On(db, h)[pair.guid := pair.interface] == installed;
        db := db[h := installed];
        return Success, h;
      }
      if handle !in db || pair.guid in db[handle] {
        return InvalidParameter, h;
      }
      db := db[handle := db[handle][pair.guid := pair.interface]];
      status := Success;
    }

    /** Removes one interface; a handle that loses its last one is gone. */
    method UninstallProtocolInterface(handle: Handle, pair: Pair) returns (status: Status)
      requires Valid()
      modifies this`db, this`exposed
      ensures Valid() && exposed == (old(exposed) || tpl < 16)
      ensures status == Success <==>
              handle in old(db) && pair.guid in old(db)[handle] && old(db)[handle][pair.guid] == pair.interface
      ensures db == if status == Success then With(old(db), handle, old(db)[handle] - {pair.guid}) else old(db)
    {
      exposed := exposed || tpl < TPL_NOTIFY;
      if handle !in db || pair.guid !in db[handle] || db[handle][pair.guid] != pair.interface {
        return NotFound;
      }
      db := With(db, handle, db[handle] - {pair.guid});
      status := Success;
    }

    /** Undoes the first `n` pairs, in the order in which they were installed. */
    method Rollback(handle: Handle, pairs: seq<Pair>, n: nat, ghost base: Database)
      requires Valid() && n <= |pairs| && Consistent(base)
      requires DistinctGuids(pairs[..n]) && Absent(On(base, handle), pairs[..n])
      requires db == With(base, handle, Added(On(base, handle), pairs[..n]))
      requires tpl == TPL_NOTIFY
      modifies this`db, this`exposed
      ensures Valid() && db == base && exposed == old(exposed)
    {
      hide Added, With, On;
      var index, k := n, 0;
      while index != 0
        invariant 0 <= k && k + index == n
        invariant Valid() && exposed == old(exposed)
        invariant db == With(base, handle, Added(On(base, handle), pairs[k..n]))
      {
        RollbackStep(base, handle, pairs, k, n);
        var _ := UninstallProtocolInterface(handle, pairs[k]);
        k := k + 1;
        index := index - 1;
      }
      RollbackEnd(base, handle, pairs, n);
    }

    method LibInstallProtocolInterfaces(handle: Handle, pairs: seq<Pair>, starved: nat -> bool)
        returns (status: Status, h: Handle)
      requires Valid() && tpl <= TPL_NOTIFY
      modifies this
      ensures Valid() && tpl == old(tpl) && exposed == old(exposed)
      ensures status == Success <==> Installable(old(db), handle, pairs, starved)
      ensures status != Success ==> db == old(db) && h == handle
      ensures forall k: nat :: FirstMisfit(old(db), handle, pairs, k, starved) ==>
        status == if starved(k) then OutOfResources else InvalidParameter
      ensures status == Success && handle != NULL ==> h == handle
      ensures status == Success && handle == NULL && pairs != [] ==> h == old(nextHandle) && h !in old(db)
      ensures status == Success ==>
              h == (if pairs == [] then handle else Target(handle, old(nextHandle))) &&
              db == With(old(db), h, Added(On(old(db), h), pairs))
    {
      hide Added, With, On, Fits;
      var oldTpl := RaiseTPL(TPL_NOTIFY);
      var oldHandle := handle;
      h := handle;
      var index := 0;
      status := Success;
      ghost var base, target := db, Target(handle, nextHandle);
      NothingAdded(base, target, pairs);
      while index < |pairs|
        invariant 0 <= index <= |pairs| && Valid() && tpl == TPL_NOTIFY && exposed == old(exposed) && status == Success
        invariant h == if index == 0 then handle else target
        invariant index == 0 ==> nextHandle == old(nextHandle)
        invariant db == With(base, target, Added(On(base, target), pairs[..index]))
        invariant forall k :: 0 <= k < index ==> Fits(base, handle, pairs, k, starved)
      {
        InstallStep(base, handle, target, pairs, index, starved);
        status, h := InstallProtocolInterface(h, pairs[index], starved(index));
        if status != Success {
          break;
        }
        index := index + 1;
      }
      if status != Success {
        FittingPairs(base, handle, pairs, index, starved);
        OnNew(base, handle, target);
        NothingAdded(base, h, pairs);
        Rollback(h, pairs, index, base);
        h := oldHandle;
      } else {
        assert pairs[..index] == pairs;
        NothingAdded(base, handle, pairs);
      }
      RestoreTPL(oldTpl);
    }

    method LibUninstallProtocolInterfaces(handle: Handle, pairs: seq<Pair>)
      requires Valid()
      modifies this`db, this`exposed
      ensures Valid()
      ensures db == With(old(db), handle, Remaining(On(old(db), handle), pairs))
    {
      var k := 0;
      ghost var base := db;
      UninstallStart(base, handle, pairs);
      while k < |pairs|
        invariant 0 <= k <= |pairs| && Valid()
        invariant db == With(base, handle, Remaining(On(base, handle), pairs[..k]))
      {
        hide With, On, Remaining;
        UninstallStep(base, handle, pairs, k);
        var _ := UninstallProtocolInterface(handle, pairs[k]);
        k := k + 1;
      }
      assert pairs[..k] == pairs;
    }
  }

  // ---- Uninstalling ----

  /** The protocols that no pair names with their own interface. */
  function Remaining(p: Protocols, pairs: seq<Pair>): Protocols {
    map g | g in p && Pair(g, p[g]) !in pairs :: p[g]
  }

  lemma UninstallStart(base: Database, handle: Handle, pairs: seq<Pair>)
    requires Consistent(base)
    ensures With(base, handle, Remaining(On(base, handle), pairs[..0])) == base
  {
    assert Remaining(On(base, handle), pairs[..0]) == On(base, handle);
    WithOn(base, handle);
  }

  lemma RemainingNext(p: Protocols, pairs: seq<Pair>, k: nat)
    requires k < |pairs|
    ensures var q, pair := Remaining(p, pairs[..k]), pairs[k];
      Remaining(p, pairs[..k + 1]) == if pair.guid in q && q[pair.guid] == pair.interface then q - {pair.guid} else q
  {
    assert pairs[..k + 1] == pairs[..k] + [pairs[k]];
  }

  lemma UninstallStep(base: Database, handle: Handle, pairs: seq<Pair>, k: nat)
    requires k < |pairs|
    ensures var db, pair := With(base, handle, Remaining(On(base, handle), pairs[..k])), pairs[k];
      With(base, handle, Remaining(On(base, handle), pairs[..k + 1])) ==
      if handle in db && pair.guid in db[handle] && db[handle][pair.guid] == pair.interface
      then With(db, handle, db[handle] - {pair.guid}) else db
  {
    hide Remaining;
    var p := On(base, handle);
    RemainingNext(p, pairs, k);
    OnWith(base, handle, Remaining(p, pairs[..k]));
    WithWith(base, handle, Remaining(p, pairs[..k]), Remaining(p, pairs[..k + 1]));
  }

  lemma AddedPair(p: Protocols, pairs: seq<Pair>, i: nat)
    requires DistinctGuids(pairs) && i < |pairs|
    ensures pairs[i].guid in Added(p, pairs) && Added(p, pairs)[pairs[i].guid] == pairs[i].interface
    decreases |pairs|
  {
    if i < |pairs| - 1 {
      AddedPair(p, pairs[..|pairs| - 1], i);
    }
  }

  lemma {:induction false} AddedOther(p: Protocols, pairs: seq<Pair>, g: Guid)
    requires g in p && forall i :: 0 <= i < |pairs| ==> pairs[i].guid != g
    ensures g in Added(p, pairs) && Added(p, pairs)[g] == p[g]
    decreases |pairs|
  {
    if pairs != [] {
      AddedOther(p, pairs[..|pairs| - 1], g);
    }
  }

  lemma RemainingOfAdded(p: Protocols, pairs: seq<Pair>)
    requires DistinctGuids(pairs) && Absent(p, pairs)
    ensures Remaining(Added(p, pairs), pairs) == p
  {
    var q, r := Added(p, pairs), Remaining(Added(p, pairs), pairs);
    forall g | g in p
      ensures g in r && r[g] == p[g]
    {
      AddedOther(p, pairs, g);
    }
    forall g | g in r
      ensures g in p
    {
      AddedKeys(p, pairs, g);
      if i :| 0 <= i < |pairs| && pairs[i].guid == g {
        AddedPair(p, pairs, i);
        assert pairs[i] == Pair(g, q[g]);
      }
    }
  }

  /** Uninstalling exactly what was installed gives back the database from before. */
  lemma UninstallUndoesInstall(base: Database, h: Handle, pairs: seq<Pair>)
    requires Consistent(base) && DistinctGuids(pairs) && Absent(On(base, h), pairs)
    ensures var installed := With(base, h, Added(On(base, h), pairs));
      With(installed, h, Remaining(On(installed, h), pairs)) == base
  {
    hide Added, Remaining;
    var p := On(base, h);
    OnWith(base, h, Added(p, pairs));
    RemainingOfAdded(p, pairs);
    WithWith(base, h, Added(p, pairs), p);
    WithOn(base, h);
  }

  /** A successful installation leaves every pair on the one handle and every other handle alone. */
  lemma InstalledPairs(base: Database, h: Handle, pairs: seq<Pair>)
    requires DistinctGuids(pairs) && Absent(On(base, h), pairs)
    ensures var installed := With(base, h, Added(On(base, h), pairs));
      && (forall i :: 0 <= i < |pairs| ==>
            pairs[i].guid in On(installed, h) && On(installed, h)[pairs[i].guid] == pairs[i].interface)
      && (forall g :: g in On(base, h) ==> g in On(installed, h) && On(installed, h)[g] == On(base, h)[g])
      && (forall other :: other != h ==> On(installed, other) == On(base, other))
  {
    hide Added, With;
    var p := On(base, h);
    var installed := With(base, h, Added(p, pairs));
    OnWith(base, h, Added(p, pairs));
    forall i | 0 <= i < |pairs|
      ensures pairs[i].guid in On(installed, h) && On(installed, h)[pairs[i].guid] == pairs[i].interface
    {
      AddedPair(p, pairs, i);
    }
    forall g | g in p
      ensures g in On(installed, h) && On(installed, h)[g] == p[g]
    {
      AddedOther(p, pairs, g);
    }
  }

  // ---- Steps of the transaction ----

  /** A new handle starts without protocols. */
  lemma OnNew(db: Database, handle: Handle, target: Handle)
    requires Consistent(db) && (handle == NULL ==> target !in db) && (handle != NULL ==> target == handle)
    ensures On(db, handle) == On(db, target)
  {
  }

  lemma NothingAdded(base: Database, h: Handle, pairs: seq<Pair>)
    requires Consistent(base)
    ensures With(base, h, Added(On(base, h), pairs[..0])) == base
  {
    WithOn(base, h);
  }

  /** With the first `k` pairs installed, pair `k` is accepted exactly when it fits, and then the first `k + 1` are. */
  lemma InstallStep(base: Database, handle: Handle, target: Handle, pairs: seq<Pair>, k: nat, starved: nat -> bool)
    requires Consistent(base) && k < |pairs| && target != NULL
    requires (handle == NULL ==> target !in base) && (handle != NULL ==> target == handle)
    requires forall i :: 0 <= i < k ==> Fits(base, handle, pairs, i, starved)
    ensures var db, h := With(base, target, Added(On(base, target), pairs[..k])), if k == 0 then handle else target;
      && (Fits(base, handle, pairs, k, starved) <==>
          !starved(k) && (h == NULL || (h in db && pairs[k].guid !in db[h])))
      && With(db, target, On(db, target)[pairs[k].guid := pairs[k].interface]) ==
         With(base, target, Added(On(base, target), pairs[..k + 1]))
  {
    var p := Added(On(base, target), pairs[..k]);
    OnNew(base, handle, target);
    OnWith(base, target, p);
    AddedNext(On(base, target), pairs, k);
    WithWith(base, target, p, Added(On(base, target), pairs[..k + 1]));
    if k == 0 {
      WithOn(base, target);
    } else {
      AddedUpTo(On(base, target), pairs, k, pairs[k - 1].guid);
      assert p != map[];
      assert Fits(base, handle, pairs, 0, starved);
      AddedUpTo(On(base, target), pairs, k, pairs[k].guid);
    }
  }

  lemma RollbackStep(base: Database, handle: Handle, pairs: seq<Pair>, k: nat, n: nat)
    requires k < n <= |pairs| && DistinctGuids(pairs[..n]) && Absent(On(base, handle), pairs[..n])
    ensures var db, pair := With(base, handle, Added(On(base, handle), pairs[k..n])), pairs[k];
      && handle in db && pair.guid in db[handle] && db[handle][pair.guid] == pair.interface
      && With(db, handle, db[handle] - {pair.guid}) == With(base, handle, Added(On(base, handle), pairs[k + 1..n]))
  {
    var p, rest := On(base, handle), pairs[k..n];
    assert forall i :: 0 <= i < |rest| ==> rest[i] == pairs[..n][k + i];
    RemoveFirst(p, rest);
    assert rest[1..] == pairs[k + 1..n];
    OnWith(base, handle, Added(p, rest));
    WithWith(base, handle, Added(p, rest), Added(p, pairs[k + 1..n]));
  }

  lemma RollbackEnd(base: Database, handle: Handle, pairs: seq<Pair>, n: nat)
    requires n <= |pairs| && Consistent(base)
    ensures With(base, handle, Added(On(base, handle), pairs[n..n])) == base
  {
    WithOn(base, handle);
  }
}
