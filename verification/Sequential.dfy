/** A process of the interleaving model that runs alone does what the sequential call does. */
module Sequential {
  import opened Cidr
  import opened Model
  import opened Database
  import opened Allocation
  import opened Lifecycle
  import opened StartCheck

  function Acts(pid: nat, n: nat): (r: seq<Action>)
    ensures |r| == n
  {
    if n == 0 then [] else [Act(pid)] + Acts(pid, n - 1)
  }

  lemma ActsStep(s: Setup, w: World, pid: nat, n: nat)
    requires pid in w.procs
    ensures n > 0 ==> Interleave(s, w, Acts(pid, n)) == Interleave(s, ActStep(s, w, pid), Acts(pid, n - 1))
    ensures n == 0 ==> Interleave(s, w, Acts(pid, n)) == w
  {
    if n > 0 {
      assert Acts(pid, n)[1..] == Acts(pid, n - 1);
    }
  }

  lemma {:induction false} DoneStays(s: Setup, w: World, pid: nat, n: nat)
    requires pid in w.procs && (w.procs[pid].Done? || w.procs[pid].StartPassed?)
    ensures Interleave(s, w, Acts(pid, n)) == w
  {
    hide Interleave, Acts, ActStep;
    ActsStep(s, w, pid, n);
    if n > 0 {
      Idle(s, w, pid);
      DoneStays(s, w, pid, n - 1);
    }
  }

  lemma Idle(s: Setup, w: World, pid: nat)
    requires pid in w.procs && (w.procs[pid].Done? || w.procs[pid].StartPassed?)
    ensures ActStep(s, w, pid) == w
  {
    hide AllocateP2P, AllocateShared, ValidateSharedNetwork, OverlapFound;
  }

  lemma ReadAct(s: Setup, w: World, pid: nat)
    requires pid in w.procs && ReadStep(s, w.tables, w.procs[pid]).Some?
    ensures ActStep(s, w, pid) == w.(procs := w.procs[pid := ReadStep(s, w.tables, w.procs[pid]).value])
  {
    hide ReadStep;
  }

  lemma PassAct(s: Setup, w: World, pid: nat)
    requires pid in w.procs && (w.procs[pid].StartRow? || w.procs[pid].StartListed?)
    requires ReadStep(s, w.tables, w.procs[pid]).None?
    ensures ActStep(s, w, pid) ==
            w.(procs := w.procs[pid := StartPassed(w.procs[pid].row)], passed := w.passed + {w.procs[pid].row.id})
  {
    hide ReadStep;
  }

  lemma NetworkAct(s: Setup, w: World, pid: nat, n: Network)
    requires pid in w.procs && w.procs[pid] == NetPlanned(n)
    ensures ActStep(s, w, pid) ==
            var done := w.(procs := w.procs[pid := Done]);
            if n.id in w.born || InsertNetwork(w.tables, n).None? then done
            else done.(tables := InsertNetwork(w.tables, n).value, born := w.born + {n.id})
  {
    hide InsertNetwork, AllocateP2P, AllocateShared, ValidateSharedNetwork, OverlapFound;
  }

  // ---------------------------------------------------------------------------------------------
  // The start check

  /** A start that runs alone passes its check exactly when the sequential check accepts the row, and changes no row. */
  lemma StartAlone(s: Setup, w: World, pid: nat, id: Id)
    requires pid in w.procs && w.procs[pid] == StartBegin(id)
    ensures
      var z := Interleave(s, w, Acts(pid, 4));
      && z.tables == w.tables && z.born == w.born
      && match GetVM(w.tables, id)
         case None => z.procs == w.procs[pid := Done] && z.passed == w.passed
         case Some(row) =>
           if EnsureVMNetworkUsable(w.tables, row).Ok?
           then z.procs == w.procs[pid := StartPassed(row)] && z.passed == w.passed + {row.id}
           else z.procs == w.procs[pid := Done] && z.passed == w.passed
  {
    hide Interleave, Acts, OverlapFound, CidrOverlaps, RoutedRange;
    var w1 := ActStep(s, w, pid);
    ActsStep(s, w, pid, 4);
    if GetVM(w.tables, id).None? {
      DoneStays(s, w1, pid, 3);
    } else {
      StartRowAlone(s, w1, pid, GetVM(w.tables, id).value);
    }
  }

  lemma StartRowAlone(s: Setup, w: World, pid: nat, row: VM)
    requires pid in w.procs && w.procs[pid] == StartRow(row)
    ensures
      var z := Interleave(s, w, Acts(pid, 3));
      && z.tables == w.tables && z.born == w.born
      && if EnsureVMNetworkUsable(w.tables, row).Ok?
         then z.procs == w.procs[pid := StartPassed(row)] && z.passed == w.passed + {row.id}
         else z.procs == w.procs[pid := Done] && z.passed == w.passed
  {
    hide Interleave, Acts, OverlapFound, CidrOverlaps, RoutedRange, ActStep;
    var w1 := ActStep(s, w, pid);
    ActsStep(s, w, pid, 3);
    if row.net.mode != Shared && RoutedRange(row.net).None? {
      PassAct(s, w, pid);
      DoneStays(s, w1, pid, 2);
    } else {
      ReadAct(s, w, pid);
      if w1.procs[pid].StartNet? {
        ReadAct(s, w1, pid);
        ActsStep(s, w1, pid, 2);
        StartListedAlone(s, ActStep(s, w1, pid), pid, 1);
      } else if w1.procs[pid].StartListed? {
        StartListedAlone(s, w1, pid, 2);
      } else {
        DoneStays(s, w1, pid, 2);
      }
    }
  }

  lemma StartListedAlone(s: Setup, w: World, pid: nat, n: nat)
    requires pid in w.procs && w.procs[pid].StartListed? && n > 0
    ensures
      var z := Interleave(s, w, Acts(pid, n));
      && z.tables == w.tables && z.born == w.born
      && if CheckFails(w.tables, w.procs[pid]) then z.procs == w.procs[pid := Done] && z.passed == w.passed
         else z.procs == w.procs[pid := StartPassed(w.procs[pid].row)]
              && z.passed == w.passed + {w.procs[pid].row.id}
  {
    hide Interleave, Acts, CheckFails, ActStep;
    ActsStep(s, w, pid, n);
    if CheckFails(w.tables, w.procs[pid]) {
      ReadAct(s, w, pid);
    } else {
      PassAct(s, w, pid);
    }
    DoneStays(s, ActStep(s, w, pid), pid, n - 1);
  }

  // ---------------------------------------------------------------------------------------------
  // CreateVM and CreateNetwork

  /** The world after an insert under an id never used, or without one. */
  predicate RowAdded(w: World, z: World, row: VM) {
    if row.id in w.born || InsertVM(w.tables, row).None? then z.tables == w.tables && z.born == w.born
    else z.tables == w.tables.(vms := [row] + w.tables.vms) && z.born == w.born + {row.id}
  }

  /** A CreateVM that runs alone inserts its row with the lease that the sequential allocator gives, or nothing when the
      allocator refuses. */
  lemma CreateAlone(s: Setup, w: World, pid: nat, row: VM)
    requires pid in w.procs && w.procs[pid] == CreateBegin(row)
    ensures
      var z := Interleave(s, w, Acts(pid, 5));
      var lease := AllocateNetwork(s, w.tables, row.net.mode, row.net.networkId);
      && z.procs == w.procs[pid := Done] && z.passed == w.passed
      && if lease.Ok? then RowAdded(w, z, Leased(row, lease.value)) else z.tables == w.tables && z.born == w.born
  {
    hide Interleave, Acts, OverlapFound, AllocateP2P, AllocateShared, InsertVM;
    var w1 := ActStep(s, w, pid);
    ActsStep(s, w, pid, 5);
    if w1.procs[pid].CreateUsed? {
      var w2 := ActStep(s, w1, pid);
      ActsStep(s, w1, pid, 4);
      InsertAlone(s, w2, pid, 3);
    } else if w1.procs[pid].CreateNet? {
      CreateSharedAlone(s, w1, pid, w1.procs[pid].row, w1.procs[pid].net);
    } else {
      DoneStays(s, w1, pid, 4);
    }
  }

  lemma CreateSharedAlone(s: Setup, w: World, pid: nat, row: VM, n: Network)
    requires pid in w.procs && w.procs[pid] == CreateNet(row, n)
    ensures
      var z := Interleave(s, w, Acts(pid, 4));
      var lease := if OverlapFound(w.tables.networks, w.tables.vms, n.cidr, n.id) then Err(Conflict)
                   else AllocateShared(n, UsedGuestIPs(w.tables));
      && z.procs == w.procs[pid := Done] && z.passed == w.passed
      && if lease.Ok? then RowAdded(w, z, Leased(row, lease.value)) else z.tables == w.tables && z.born == w.born
  {
    hide Interleave, Acts, OverlapFound, AllocateShared, InsertVM;
    var w1 := ActStep(s, w, pid);
    var w2 := ActStep(s, w1, pid);
    ActsStep(s, w, pid, 4);
    ActsStep(s, w1, pid, 3);
    if w2.procs[pid].Done? {
      DoneStays(s, w2, pid, 2);
    } else {
      ActsStep(s, w2, pid, 2);
      InsertAlone(s, ActStep(s, w2, pid), pid, 1);
    }
  }

  lemma InsertAlone(s: Setup, w: World, pid: nat, n: nat)
    requires pid in w.procs && n > 0 && (w.procs[pid].CreatePlanned? || w.procs[pid].Done?)
    ensures
      var z := Interleave(s, w, Acts(pid, n));
      && z.procs == w.procs[pid := Done] && z.passed == w.passed
      && if w.procs[pid].CreatePlanned? then RowAdded(w, z, w.procs[pid].row) else z == w
  {
    hide Interleave, Acts;
    if w.procs[pid].Done? {
      DoneStays(s, w, pid, n);
    } else {
      ActsStep(s, w, pid, n);
      DoneStays(s, ActStep(s, w, pid), pid, n - 1);
    }
  }

  lemma NetworkReads(s: Setup, t: Tables, id: Id, name: string, text: Option<CidrText>, gateway: Option<u32>)
    ensures ReadStep(s, t, NetBegin(id, name, text, gateway)) == Some(NetListed(id, name, text, gateway, t.networks))
    ensures var r := ValidateSharedNetwork(s.vmCidr, t, text, gateway);
            ReadStep(s, t, NetListed(id, name, text, gateway, t.networks))
            == Some(if r.Ok? then NetPlanned(Network(id, name, r.value.0, r.value.1)) else Done)
  {
    hide ValidateSharedNetwork;
    assert t.(networks := t.networks) == t;
  }

  /** A CreateNetwork that runs alone inserts the network that the sequential validation accepts, or nothing. */
  lemma NetworkAlone(s: Setup, w: World, pid: nat, id: Id, name: string, text: Option<CidrText>, gateway: Option<u32>)
    requires pid in w.procs && w.procs[pid] == NetBegin(id, name, text, gateway)
    ensures
      var z := Interleave(s, w, Acts(pid, 3));
      var (u, r) := CreateNetwork(s, w.tables, true, id, name, text, gateway);
      && z.procs == w.procs[pid := Done] && z.passed == w.passed
      && if r.Ok? && id !in w.born then z.tables == u && z.born == w.born + {id}
         else z.tables == w.tables && z.born == w.born
  {
    hide Interleave, Acts, ValidateSharedNetwork, InsertNetwork, ActStep, ReadStep;
    NetworkReads(s, w.tables, id, name, text, gateway);
    var w1 := ActStep(s, w, pid);
    ActsStep(s, w, pid, 3);
    ReadAct(s, w, pid);
    var w2 := ActStep(s, w1, pid);
    ActsStep(s, w1, pid, 2);
    ReadAct(s, w1, pid);
    if w2.procs[pid].NetPlanned? {
      ActsStep(s, w2, pid, 1);
      NetworkAct(s, w2, pid, w2.procs[pid].net);
      DoneStays(s, ActStep(s, w2, pid), pid, 0);
    } else {
      DoneStays(s, w2, pid, 1);
    }
  }

  /** The DELETE of a network that no row names takes exactly it, and that of a VM its row. */
  lemma DropsAlone(s: Setup, w: World, pid: nat)
    requires pid in w.procs && (w.procs[pid].DropNetwork? || w.procs[pid].DropVM?)
    ensures
      var z, id := Interleave(s, w, Acts(pid, 1)), w.procs[pid].id;
      && z.procs == w.procs[pid := Done] && z.passed == w.passed && z.born == w.born
      && (w.procs[pid].DropVM? ==> forall v :: v in z.tables.vms <==> v in w.tables.vms && v.id != id)
      && (w.procs[pid].DropNetwork? ==>
            forall n :: n in z.tables.networks <==>
              n in w.tables.networks && (n.id != id || exists v :: v in w.tables.vms && v.net.networkId == id))
  {
    hide Interleave, Acts;
    ActsStep(s, w, pid, 1);
    DoneStays(s, ActStep(s, w, pid), pid, 0);
  }
}
