/** Which rows can overlap when calls interleave: never two routed rows, and otherwise only an owner that was inserted
    after the planning call had listed its kind. */
module Overlaps {
  import opened Cidr
  import opened Model
  import opened Database
  import opened Allocation
  import opened Lifecycle
  import opened StartCheck

  // ---------------------------------------------------------------------------------------------
  // Routed rows

  /** A routed range is the aligned /30 around the row's two addresses. */
  predicate IsLease(a: Address) {
    RoutedRange(a).Some? ==>
      a.hostIP.Some? && a.guestIP == a.hostIP.value + 1
      && RoutedRange(a).value.ones == 30 && RoutedRange(a).value.ip == a.hostIP.value - 1
  }

  predicate HoldsLease(p: Proc) {
    match p
    case CreateNet(row, _) => row.net.mode == Shared
    case CreateNetListed(row, _, _) => row.net.mode == Shared
    case CreateChecked(row, _) => row.net.mode == Shared
    case CreatePlanned(row) => IsLease(row.net)
    case StartRow(row) => IsLease(row.net)
    case StartNet(row, _) => IsLease(row.net)
    case StartListed(row, _, _) => IsLease(row.net)
    case StartPassed(row) => IsLease(row.net)
    case Holder(row) => IsLease(row.net)
    case _ => true
  }

  predicate LeasedRows(t: Tables) {
    Distinct(t.vms) && forall v :: v in t.vms ==> IsLease(v.net)
  }

  predicate LeasedWorld(w: World) {
    LeasedRows(w.tables) && forall pid :: pid in w.procs ==> HoldsLease(w.procs[pid])
  }

  lemma LeaseOf(s: Setup, row: VM, used: set<u32>, nets: seq<IPNet>)
    requires AllocateP2P(s.vmCidr, used, nets).Ok?
    ensures var a := Leased(row, AllocateP2P(s.vmCidr, used, nets).value).net;
            IsLease(a) && (RoutedRange(a).Some? ==> forall c :: c in nets ==> !CidrOverlaps(RoutedRange(a).value, c))
  {
    hide CidrWithin, CidrOverlaps, Low, Pow2, And;
    P2PComplete(s.vmCidr, used, nets);
  }

  lemma ReadKeepsLeases(s: Setup, t: Tables, p: Proc)
    requires LeasedRows(t) && HoldsLease(p) && ReadStep(s, t, p).Some?
    ensures HoldsLease(ReadStep(s, t, p).value)
  {
    hide Distinct, IsLease, AllocateP2P, AllocateShared, ValidateSharedNetwork, OverlapFound, CheckFails;
    match p {
      case CreateUsed(row, used) =>
        if AllocateP2P(s.vmCidr, used, NetworkCidrs(t)).Ok? {
          LeaseOf(s, row, used, NetworkCidrs(t));
        }
      case CreateChecked(row, n) =>
        if AllocateShared(n, UsedGuestIPs(t)).Ok? {
          SharedIsLease(Leased(row, AllocateShared(n, UsedGuestIPs(t)).value).net);
        }
      case _ =>
    }
  }

  lemma SharedIsLease(a: Address)
    requires a.mode == Shared
    ensures IsLease(a)
  {
  }

  lemma PutKeepsLeases(t: Tables, row: VM)
    requires LeasedRows(t) && IsLease(row.net)
    ensures LeasedRows(Put(t, row))
  {
    hide IsLease;
    if UpdateVM(t, row).Some? {
      ReplaceVMRows(t.vms, row);
      if exists w :: w in t.vms && w.id == row.id {
        ReplaceVMDistinct(t.vms, row);
      } else {
        assert ReplaceVM(t.vms, row) == t.vms;
      }
    }
  }

  lemma InsertKeepsLeases(t: Tables, row: VM)
    requires LeasedRows(t) && IsLease(row.net) && InsertVM(t, row).Some?
    ensures LeasedRows(InsertVM(t, row).value)
  {
    hide IsLease;
    assert ([row] + t.vms)[1..] == t.vms;
  }

  lemma DeleteKeepsLeases(t: Tables, id: Id)
    requires LeasedRows(t)
    ensures LeasedRows(DeleteVM(t, id))
  {
    hide IsLease;
    DistinctFilter(t.vms, (v: VM) => v.id != id);
  }

  lemma ActKeepsLeases(s: Setup, w: World, pid: nat)
    requires LeasedWorld(w) && pid in w.procs
    ensures LeasedWorld(ActStep(s, w, pid))
  {
    hide LeasedRows, IsLease, ReadStep, InsertVM, DeleteVM, DeleteNetwork;
    var p := w.procs[pid];
    if ReadStep(s, w.tables, p).Some? {
      ReadKeepsLeases(s, w.tables, p);
    } else {
      match p {
        case CreatePlanned(row) =>
          if InsertVM(w.tables, row).Some? {
            InsertKeepsLeases(w.tables, row);
          }
        case NetPlanned(n) =>
          if InsertNetwork(w.tables, n).Some? {
            SameRowsSameLeases(w.tables, InsertNetwork(w.tables, n).value);
          }
        case DropNetwork(id) =>
          DeleteNetworkRows(w.tables, id);
          SameRowsSameLeases(w.tables, OrSame(w.tables, DeleteNetwork(w.tables, id)));
        case DropVM(id) => DeleteKeepsLeases(w.tables, id);
        case _ =>
      }
    }
  }

  lemma DeleteNetworkRows(t: Tables, id: Id)
    ensures OrSame(t, DeleteNetwork(t, id)).vms == t.vms
  {
  }

  lemma SameRowsSameLeases(t: Tables, u: Tables)
    requires LeasedRows(t) && u.vms == t.vms
    ensures LeasedRows(u)
  {
  }

  lemma {:induction false} InterleaveKeepsLeases(s: Setup, w: World, actions: seq<Action>)
    requires LeasedWorld(w)
    ensures LeasedWorld(Interleave(s, w, actions))
    decreases |actions|
  {
    hide LeasedRows, IsLease, ActStep, Put;
    if actions != [] {
      match actions[0] {
        case Spawn(pid, p) =>
        case Act(pid) =>
          if pid in w.procs {
            ActKeepsLeases(s, w, pid);
          }
        case Write(pid, row) =>
          if pid in w.procs && MayWrite(w.procs[pid], row) {
            SameLease(w.procs[pid], row);
            PutKeepsLeases(w.tables, row);
          }
      }
      InterleaveKeepsLeases(s, Step(s, w, actions[0]), actions[1..]);
    }
  }

  lemma SameLease(p: Proc, row: VM)
    requires HoldsLease(p) && MayWrite(p, row)
    ensures IsLease(row.net)
  {
    hide IsLease;
  }

  lemma LeasesApart(a: Address, b: Address)
    requires IsLease(a) && IsLease(b) && RoutedRange(a).Some? && RoutedRange(b).Some? && a.guestIP != b.guestIP
    ensures !CidrOverlaps(RoutedRange(a).value, RoutedRange(b).value)
  {
    hide RoutedRange;
    var c, d := RoutedRange(a).value, RoutedRange(b).value;
    if CidrOverlaps(c, d) {
      OverlapNests(c, d);
      OverlapNests(d, c);
    }
  }

  /** In every interleaving, from every registry of leases, routed blocks are disjoint: the UNIQUE guest address keeps
      them apart. */
  lemma RoutedRowsNeverOverlap(s: Setup, w: World, actions: seq<Action>)
    requires LeasedRows(w.tables) && w.procs == map[]
    ensures var t := Interleave(s, w, actions).tables;
            forall u, v | u in t.vms && v in t.vms && u != v ::
              RoutedRange(u.net).Some? && RoutedRange(v.net).Some? ==>
                !CidrOverlaps(RoutedRange(u.net).value, RoutedRange(v.net).value)
  {
    hide Interleave, IsLease, CidrOverlaps, RoutedRange;
    InterleaveKeepsLeases(s, w, actions);
    var t := Interleave(s, w, actions).tables;
    forall u, v | u in t.vms && v in t.vms && u != v && RoutedRange(u.net).Some? && RoutedRange(v.net).Some?
      ensures !CidrOverlaps(RoutedRange(u.net).value, RoutedRange(v.net).value)
    {
      if u.net.guestIP == v.net.guestIP {
        DistinctRows(t.vms, u, v);
      }
      LeasesApart(u.net, v.net);
    }
  }

  // ---------------------------------------------------------------------------------------------
  // Owners inserted since

  /** What is registered in z was registered in w or inserted since. */
  ghost predicate Later(w: World, z: World) {
    && w.born <= z.born
    && (forall n :: n in z.tables.networks ==> n in w.tables.networks || n.id !in w.born)
    && (forall i, a :: Registered(z.tables, i, a) ==> Registered(w.tables, i, a) || i !in w.born)
  }

  lemma PutRegisters(w: World, row: VM, i: Id, a: Address)
    requires Safe(w) && RowKnown(w, row) && Registered(Put(w.tables, row), i, a)
    ensures Registered(w.tables, i, a)
  {
    hide ProcKnown, MissedAreApart, NoOverlappingStarts, ListingsMeet, PassedHaveNetworks;
    ReplaceVMRows(w.tables.vms, row);
    var v :| v in Put(w.tables, row).vms && v.id == i && v.net == a;
    if v !in w.tables.vms {
      var x :| x in w.tables.vms && x.id == row.id;
      assert Registered(w.tables, x.id, x.net);
    }
  }

  lemma ActLater(s: Setup, w: World, pid: nat)
    requires pid in w.procs
    ensures Later(w, ActStep(s, w, pid))
  {
    hide ReadStep, CidrOverlaps;
    var p, z := w.procs[pid], ActStep(s, w, pid);
    if ReadStep(s, w.tables, p).None? && p.CreatePlanned? {
      assert forall i, a :: Registered(z.tables, i, a) ==>
                              Registered(w.tables, i, a) || (i == p.row.id && i !in w.born);
    }
  }

  lemma StepLater(s: Setup, w: World, a: Action)
    requires Safe(w)
    ensures Later(w, Step(s, w, a))
  {
    hide Safe, ActStep, Put;
    match a {
      case Spawn(_, _) =>
      case Act(pid) =>
        if pid in w.procs {
          ActLater(s, w, pid);
        }
      case Write(pid, row) =>
        if pid in w.procs && MayWrite(w.procs[pid], row) {
          WriterKnown(w, pid, row);
          PutNetworks(w.tables, row);
          forall i, x | Registered(Put(w.tables, row), i, x)
            ensures Registered(w.tables, i, x)
          {
            PutRegisters(w, row, i, x);
          }
        }
    }
  }

  lemma WriterKnown(w: World, pid: nat, row: VM)
    requires Safe(w) && pid in w.procs && MayWrite(w.procs[pid], row)
    ensures RowKnown(w, row)
  {
    hide MissedAreApart, NoOverlappingStarts, ListingsMeet, PassedHaveNetworks, Keyed;
    assert ProcKnown(w, w.procs[pid]);
  }

  lemma PutNetworks(t: Tables, row: VM)
    ensures Put(t, row).networks == t.networks
  {
  }

  lemma LaterTransitive(w: World, x: World, z: World)
    requires Later(w, x) && Later(x, z)
    ensures Later(w, z)
  {
    hide Registered;
  }

  lemma {:induction false} InterleaveLater(s: Setup, w: World, actions: seq<Action>)
    requires Safe(w)
    ensures Later(w, Interleave(s, w, actions))
    decreases |actions|
  {
    hide Safe, Step, Later;
    if actions == [] {
      LaterNow(w);
    } else {
      StepSafe(s, w, actions[0]);
      StepLater(s, w, actions[0]);
      InterleaveLater(s, Step(s, w, actions[0]), actions[1..]);
      LaterTransitive(w, Step(s, w, actions[0]), Interleave(s, w, actions));
    }
  }

  lemma LaterNow(w: World)
    ensures Later(w, w)
  {
  }

  /** A network that a planned routed block overlaps, then or at any later time, was inserted after CreateVM listed the
      networks. */
  lemma RoutedOverlapsAreNewer(s: Setup, w: World, pid: nat, actions: seq<Action>)
    requires Safe(w) && pid in w.procs && w.procs[pid].CreateUsed? && Step(s, w, Act(pid)).procs[pid].CreatePlanned?
    ensures var row := Step(s, w, Act(pid)).procs[pid].row;
            var t := Interleave(s, Step(s, w, Act(pid)), actions).tables;
            RoutedRange(row.net).Some? ==>
              forall n :: n in t.networks && CidrOverlaps(RoutedRange(row.net).value, n.cidr) ==> n.id !in w.born
  {
    hide Safe, Interleave, CidrOverlaps, RoutedRange, AllocateP2P, IsLease;
    var z := Step(s, w, Act(pid));
    StepSafe(s, w, Act(pid));
    InterleaveLater(s, z, actions);
    var p := w.procs[pid];
    LeaseOf(s, p.row, p.used, NetworkCidrs(w.tables));
    forall n | n in w.tables.networks
      ensures n.cidr in NetworkCidrs(w.tables)
    {
      var i :| 0 <= i < |w.tables.networks| && w.tables.networks[i] == n;
      assert NetworkCidrs(w.tables)[i] == n.cidr;
    }
    assert z.tables == w.tables && z.born == w.born;
  }

  /** A network that a planned network overlaps was inserted after CreateNetwork listed the networks, and a routed VM
      after it listed the VMs. */
  lemma NetworkOverlapsAreNewer(s: Setup, w: World, pid: nat, between: seq<Action>, actions: seq<Action>)
    requires Safe(w) && pid in w.procs && w.procs[pid].NetBegin?
    requires var x := Interleave(s, Step(s, w, Act(pid)), between);
             pid in x.procs && x.procs[pid] == Step(s, w, Act(pid)).procs[pid]
             && Step(s, x, Act(pid)).procs[pid].NetPlanned?
    ensures
      var x := Interleave(s, Step(s, w, Act(pid)), between);
      var c := Step(s, x, Act(pid)).procs[pid].net.cidr;
      var t := Interleave(s, Step(s, x, Act(pid)), actions).tables;
      && (forall m :: m in t.networks && CidrOverlaps(c, m.cidr) ==> m.id !in w.born)
      && (forall v :: v in t.vms && RoutedRange(v.net).Some? && CidrOverlaps(c, RoutedRange(v.net).value) ==>
            v.id !in x.born)
  {
    hide Safe, Interleave, CidrOverlaps, RoutedRange, ValidateSharedNetwork, Later;
    var w1 := Step(s, w, Act(pid));
    var x := Interleave(s, w1, between);
    var x1 := Step(s, x, Act(pid));
    StepSafe(s, w, Act(pid));
    InterleavingsSafe(s, w1, between);
    StepSafe(s, x, Act(pid));
    InterleaveLater(s, w1, between);
    StepLater(s, w, Act(pid));
    LaterTransitive(w, w1, x);
    StepLater(s, x, Act(pid));
    InterleaveLater(s, x1, actions);
    var z := Interleave(s, x1, actions);
    LaterTransitive(x, x1, z);
    LaterTransitive(w, x, z);
    PlannedApart(w.tables.networks, x.tables.vms, x1.procs[pid].net.cidr);
    NewerOnly(w, x, z, x1.procs[pid].net.cidr);
  }

  lemma PlannedApart(networks: seq<Network>, vms: seq<VM>, c: IPNet)
    requires !OverlapFound(networks, vms, c, "")
    ensures forall m :: m in networks ==> !CidrOverlaps(c, m.cidr)
    ensures forall v :: v in vms && RoutedRange(v.net).Some? ==> !CidrOverlaps(c, RoutedRange(v.net).value)
  {
    hide CidrOverlaps, RoutedRange;
    forall m | m in networks
      ensures !CidrOverlaps(c, m.cidr)
    {
      assert !NetworkMeets(m, c, "");
    }
    forall v | v in vms && RoutedRange(v.net).Some?
      ensures !CidrOverlaps(c, RoutedRange(v.net).value)
    {
      assert !VMMeets(v, c, "");
    }
  }

  lemma NewerOnly(w: World, x: World, z: World, c: IPNet)
    requires Later(w, z) && Later(x, z)
    requires forall m :: m in w.tables.networks ==> !CidrOverlaps(c, m.cidr)
    requires forall v :: v in x.tables.vms && RoutedRange(v.net).Some? ==> !CidrOverlaps(c, RoutedRange(v.net).value)
    ensures forall m :: m in z.tables.networks && CidrOverlaps(c, m.cidr) ==> m.id !in w.born
    ensures forall v :: v in z.tables.vms && RoutedRange(v.net).Some? && CidrOverlaps(c, RoutedRange(v.net).value) ==>
                          v.id !in x.born
  {
    hide CidrOverlaps, RoutedRange;
    forall v | v in z.tables.vms && v.id in x.born && RoutedRange(v.net).Some?
      ensures !CidrOverlaps(c, RoutedRange(v.net).value)
    {
      assert Registered(z.tables, v.id, v.net);
      assert Registered(x.tables, v.id, v.net);
    }
  }
}
