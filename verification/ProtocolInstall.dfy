/**
  * Installing several protocol interfaces on a handle as one transaction: when one
  * of them cannot be installed, those before it are taken out again.
  */
module ProtocolInstall {
  import opened Machine

  const TPL_NOTIFY := 16

  /** A protocol and the interface that implements it. */
  datatype Pair = Pair(protocol: nat, iface: nat)

  /** Which interface implements a protocol on a handle. */
  type Database = map<(nat, nat), nat>

  /** The firmware's side (section 6.3 of UEFI 2.3): handle zero is no handle. */
  class Firmware {
    var database: Database
    var nextHandle: nat
    var tpl: nat
    ghost var denied: nat  // how often an interface could not be taken out because it was in use
    ghost var refused: nat  // how often an interface could not be installed

    ghost predicate Valid()
      reads this
    {
      nextHandle > 0 && forall k :: k in database ==> k.0 < nextHandle
    }

    constructor ()
      ensures Valid()
    {
      database := map[];
      nextHandle := 1;
      tpl := 4;
      denied := 0;
      refused := 0;
    }

    method RaiseTpl(level: nat) returns (was: nat)
      requires tpl <= level
      modifies this`tpl
      ensures was == old(tpl) && tpl == level
    {
      was := tpl;
      tpl := level;
    }

    method RestoreTpl(level: nat)
      requires level <= tpl
      modifies this`tpl
      ensures tpl == level
    {
      tpl := level;
    }

    /** Installs on the given handle, or on a new one; a failure leaves everything as it was. */
    method Install(handle: nat, p: Pair) returns (status: nat, handle': nat)
      requires Valid() && handle < nextHandle
      modifies this`database, this`nextHandle, this`refused
      ensures Valid() && handle' < nextHandle && nextHandle >= old(nextHandle)
      ensures EfiError(status) ==> handle' == handle && database == old(database)
      ensures refused == old(refused) + if EfiError(status) then 1 else 0
      ensures !EfiError(status) ==>
        && handle' != 0 && (handle != 0 ==> handle' == handle)
        && (handle == 0 ==> forall k :: k in old(database) ==> k.0 != handle')
        && (handle', p.protocol) !in old(database)
        && database == old(database)[(handle', p.protocol) := p.iface]
    {
      handle' := handle;
      if * {
        refused := refused + 1;
        return OUT_OF_RESOURCES, handle;
      }
      if handle != 0 && (handle, p.protocol) in database {
        refused := refused + 1;
        return INVALID_PARAMETER, handle;
      }
      if handle == 0 {
        handle' := nextHandle;
        nextHandle := nextHandle + 1;
      }
      database := database[(handle', p.protocol) := p.iface];
      status := SUCCESS;
    }

    /** Takes an interface out, unless it is not there or someone is using it. */
    method Uninstall(handle: nat, p: Pair) returns (status: nat)
      requires Valid()
      modifies this`database, this`denied
      ensures Valid()
      ensures !EfiError(status) ==>
        && (handle, p.protocol) in old(database) && old(database)[(handle, p.protocol)] == p.iface
        && database == old(database) - {(handle, p.protocol)} && denied == old(denied)
      ensures EfiError(status) ==> database == old(database)
      ensures EfiError(status) && denied == old(denied) ==>
        (handle, p.protocol) !in database || database[(handle, p.protocol)] != p.iface
      ensures denied == old(denied) || denied == old(denied) + 1
    {
      if (handle, p.protocol) !in database || database[(handle, p.protocol)] != p.iface {
        return NOT_FOUND;
      }
      if * {
        denied := denied + 1;
        return ACCESS_DENIED;
      }
      database := database - {(handle, p.protocol)};
      status := SUCCESS;
    }
  }

  /** The database with all pairs on a handle. */
  function Installed(database: Database, handle: nat, pairs: seq<Pair>): Database {
    if pairs == [] then database
    else Installed(database, handle, pairs[1..])[(handle, pairs[0].protocol) := pairs[0].iface]
  }

  /** The pairs are for different protocols, none of which the handle has. */
  ghost predicate AllNew(database: Database, handle: nat, pairs: seq<Pair>) {
    && (forall i :: 0 <= i < |pairs| ==> (handle, pairs[i].protocol) !in database)
    && (forall i, j :: 0 <= i < j < |pairs| ==> pairs[i].protocol != pairs[j].protocol)
  }

  lemma {:induction false} InstalledKeys(database: Database, handle: nat, pairs: seq<Pair>, k: (nat, nat))
    ensures k in Installed(database, handle, pairs) <==>
      k in database || exists i :: 0 <= i < |pairs| && k == (handle, pairs[i].protocol)
  {
    if pairs != [] {
      InstalledKeys(database, handle, pairs[1..], k);
      assert forall i :: 0 < i < |pairs| ==> pairs[i] == pairs[1..][i - 1];
    }
  }

  /** Every pair is found on the handle, and what was in the database before is still there. */
  lemma {:induction false} InstalledValues(database: Database, handle: nat, pairs: seq<Pair>, i: nat, k: (nat, nat))
    requires AllNew(database, handle, pairs)
    ensures i < |pairs| ==> var key := (handle, pairs[i].protocol);
                            key in Installed(database, handle, pairs)
                            && Installed(database, handle, pairs)[key] == pairs[i].iface
    ensures k in database ==> k in Installed(database, handle, pairs)
                              && Installed(database, handle, pairs)[k] == database[k]
  {
    if pairs != [] {
      assert forall j :: 0 < j < |pairs| ==> pairs[j] == pairs[1..][j - 1];
      InstalledValues(database, handle, pairs[1..], if i > 0 then i - 1 else 0, k);
    }
  }

  lemma {:induction false} InstalledSnoc(database: Database, handle: nat, pairs: seq<Pair>, p: Pair)
    requires forall i :: 0 <= i < |pairs| ==> pairs[i].protocol != p.protocol
    ensures Installed(database, handle, pairs + [p])
      == Installed(database, handle, pairs)[(handle, p.protocol) := p.iface]
  {
    if pairs == [] {
      assert [] + [p] == [p];
    } else {
      InstalledSnoc(database, handle, pairs[1..], p);
      assert (pairs + [p])[1..] == pairs[1..] + [p];
      assert (pairs + [p])[0] == pairs[0];
    }
  }

  /** Taking out the first of the pairs leaves the others. */
  lemma InstalledHead(database: Database, handle: nat, pairs: seq<Pair>)
    requires pairs != [] && AllNew(database, handle, pairs)
    ensures (handle, pairs[0].protocol) in Installed(database, handle, pairs)
    ensures Installed(database, handle, pairs)[(handle, pairs[0].protocol)] == pairs[0].iface
    ensures Installed(database, handle, pairs) - {(handle, pairs[0].protocol)}
      == Installed(database, handle, pairs[1..])
  {
    InstalledKeys(database, handle, pairs[1..], (handle, pairs[0].protocol));
    assert forall i :: 0 < i < |pairs| ==> pairs[i] == pairs[1..][i - 1];
  }

  /** Some interface was left behind in the database. */
  ghost predicate LeftBehind(database: Database, was: Database, handle: nat, pairs: seq<Pair>, n: nat)
    requires n <= |pairs|
  {
    exists i :: 0 <= i < n && (handle, pairs[i].protocol) in database && (handle, pairs[i].protocol) !in was
  }

  /** Takes out the first `n` pairs, in the order in which they were installed. */
  method TakeOut(fw: Firmware, handle: nat, pairs: seq<Pair>, n: nat, ghost was: Database)
    requires fw.Valid() && n <= |pairs|
    requires AllNew(was, handle, pairs[..n]) && fw.database == Installed(was, handle, pairs[..n])
    modifies fw`database, fw`denied
    ensures fw.Valid() && fw.denied >= old(fw.denied)
    ensures fw.database == was <==> fw.denied == old(fw.denied)
  {
    ghost var all := pairs[..n];
    assert all[0..] == all;
    var i := 0;
    while i < n
      invariant 0 <= i <= n && fw.Valid() && fw.denied >= old(fw.denied)
      invariant fw.denied == old(fw.denied) ==> fw.database == Installed(was, handle, all[i..])
      invariant fw.denied > old(fw.denied) ==> LeftBehind(fw.database, was, handle, pairs, i)
    {
      ghost var rest := all[i..];
      ghost var before, deniedBefore := fw.database, fw.denied;
      InstalledHead(was, handle, rest);
      assert rest[1..] == all[i + 1..] && rest[0] == pairs[i];
      var status := fw.Uninstall(handle, pairs[i]);
      if deniedBefore > old(fw.denied) {
        ghost var k :| 0 <= k < i && (handle, pairs[k].protocol) in before && (handle, pairs[k].protocol) !in was;
        assert all[k] == pairs[k] && all[i] == pairs[i];
        assert (handle, pairs[k].protocol) in fw.database;
      } else if fw.denied > deniedBefore {
        assert all[i] == pairs[i] && (handle, pairs[i].protocol) in fw.database;
      }
      i := i + 1;
    }
  }

  lemma NothingYet(was: Database, handle: nat, pairs: seq<Pair>)
    ensures AllNew(was, handle, pairs[..0]) && Installed(was, handle, pairs[..0]) == was
  {
  }

  lemma Extended(was: Database, database: Database, handle: nat, handle': nat, pairs: seq<Pair>, i: nat)
    requires i < |pairs| && AllNew(was, handle, pairs[..i]) && database == Installed(was, handle, pairs[..i])
    requires i > 0 ==> handle' == handle
    requires (handle', pairs[i].protocol) !in database
    ensures AllNew(was, handle', pairs[..i + 1])
    ensures database[(handle', pairs[i].protocol) := pairs[i].iface] == Installed(was, handle', pairs[..i + 1])
  {
    assert pairs[..i + 1] == pairs[..i] + [pairs[i]];
    forall k | 0 <= k < i ensures pairs[k].protocol != pairs[i].protocol {
      assert pairs[..i][k] == pairs[k];
      InstalledKeys(was, handle, pairs[..i], (handle, pairs[k].protocol));
    }
    InstalledKeys(was, handle, pairs[..i], (handle', pairs[i].protocol));
    InstalledSnoc(was, handle', pairs[..i], pairs[i]);
  }

  /**
    * Either all interfaces are installed, on the given handle or on one new handle,
    * or the handle is as it was, and so is the database unless the firmware refused
    * to give an interface back.  The priority level is restored in both cases.
    */
  method LibInstallProtocolInterfaces(fw: Firmware, handle: nat, pairs: seq<Pair>) returns (status: nat, handle': nat)
    requires fw.Valid() && handle < fw.nextHandle && fw.tpl <= TPL_NOTIFY
    modifies fw
    ensures fw.Valid() && fw.tpl == old(fw.tpl)
    ensures EfiError(status) <==> fw.refused > old(fw.refused)
    ensures !EfiError(status) ==>
      && AllNew(old(fw.database), handle', pairs)
      && fw.database == Installed(old(fw.database), handle', pairs)
      && (handle != 0 || pairs == [] ==> handle' == handle)
      && (handle == 0 && pairs != [] ==> handle' != 0 && forall k :: k in old(fw.database) ==> k.0 != handle')
    ensures EfiError(status) ==> handle' == handle && (fw.database == old(fw.database) <==> fw.denied == old(fw.denied))
  {
    hide Installed, AllNew;
    var oldTpl := fw.RaiseTpl(TPL_NOTIFY);
    ghost var was := fw.database;
    NothingYet(was, handle, pairs);
    handle' := handle;
    var i := 0;
    status := SUCCESS;
    while !EfiError(status)
      invariant !EfiError(status) && fw.refused == old(fw.refused)
      invariant fw.Valid() && handle' < fw.nextHandle && fw.tpl == TPL_NOTIFY && fw.denied == old(fw.denied)
      invariant 0 <= i <= |pairs| && AllNew(was, handle', pairs[..i])
      invariant fw.database == Installed(was, handle', pairs[..i])
      invariant handle != 0 || i == 0 ==> handle' == handle
      invariant handle == 0 && i > 0 ==> handle' != 0 && forall k :: k in was ==> k.0 != handle'
      decreases !EfiError(status), |pairs| - i
    {
      if i == |pairs| {
        break;
      }
      ghost var before := handle';
      ghost var database := fw.database;
      status, handle' := fw.Install(handle', pairs[i]);
      if EfiError(status) {
        break;
      }
      Extended(was, database, before, handle', pairs, i);
      i := i + 1;
    }
    if EfiError(status) {
      TakeOut(fw, handle', pairs, i, was);
      handle' := handle;
    } else {
      assert pairs[..i] == pairs;
    }
    fw.RestoreTpl(oldTpl);
  }
}
