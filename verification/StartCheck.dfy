/** The start-time re-check under concurrency. Lifecycle calls are processes, and each of their steps is one method of
    the store; any interleaving of any number of them is a sequence of actions. Rows whose ranges overlap can appear,
    because the allocators read before they insert, but two of them never both pass the start check. */
module StartCheck {
  import opened Cidr
  import opened Model
  import opened Database
  import opened Allocation
  import opened Lifecycle

  // ---------------------------------------------------------------------------------------------
  // Processes

  datatype Proc =
    // CreateVM: `row` still lacks its addresses until CreatePlanned
    | CreateBegin(row: VM)
    | CreateUsed(row: VM, used: set<u32>)
    | CreateNet(row: VM, net: Network)
    | CreateNetListed(row: VM, net: Network, nets: seq<Network>)
    | CreateChecked(row: VM, net: Network)
    | CreatePlanned(row: VM)
    // CreateNetwork
    | NetBegin(id: Id, name: string, text: Option<CidrText>, gateway: Option<u32>)
    | NetListed(id: Id, name: string, text: Option<CidrText>, gateway: Option<u32>, nets: seq<Network>)
    | NetPlanned(net: Network)
    // DeleteNetwork and DeleteVM, at their DELETE
    | DropNetwork(id: Id)
    | DropVM(id: Id)
    // StartVM
    | StartBegin(id: Id)
    | StartRow(row: VM)
    | StartNet(row: VM, net: Network)
    | StartListed(row: VM, own: Option<Network>, nets: seq<Network>)
    | StartPassed(row: VM)
    // any other call that reads a row and writes it back
    | Reader(id: Id)
    | Holder(row: VM)
    | Done

  /** `passed` are the ids whose start check has succeeded; `born` the ids ever inserted. */
  datatype World = World(tables: Tables, procs: map<nat, Proc>, passed: set<Id>, born: set<Id>)

  datatype Action = Spawn(pid: nat, proc: Proc) | Act(pid: nat) | Write(pid: nat, row: VM)

  predicate Initial(p: Proc) {
    p.CreateBegin? || p.NetBegin? || p.DropNetwork? || p.DropVM? || p.StartBegin? || p.Reader?
  }

  function Leased(row: VM, l: Lease): VM {
    row.(net := row.net.(hostIP := Some(l.host), guestIP := l.guest, prefix := l.prefix))
  }

  /** The next local state of a process after its database read; None when the step is not a plain read. */
  function ReadStep(s: Setup, t: Tables, p: Proc): Option<Proc> {
    match p
    case CreateBegin(row) =>
      if row.net.mode == Routed then Some(CreateUsed(row, UsedGuestIPs(t)))
      else if row.net.mode == Shared && row.net.networkId != "" && GetNetwork(t, row.net.networkId).Some? then
        Some(CreateNet(row, GetNetwork(t, row.net.networkId).value))
      else Some(Done)
    case CreateUsed(row, used) =>
      var r := AllocateP2P(s.vmCidr, used, NetworkCidrs(t));
      Some(if r.Ok? then CreatePlanned(Leased(row, r.value)) else Done)
    case CreateNet(row, n) => Some(CreateNetListed(row, n, t.networks))
    case CreateNetListed(row, n, nets) =>
      Some(if OverlapFound(nets, t.vms, n.cidr, n.id) then Done else CreateChecked(row, n))
    case CreateChecked(row, n) =>
      var r := AllocateShared(n, UsedGuestIPs(t));
      Some(if r.Ok? then CreatePlanned(Leased(row, r.value)) else Done)
    case NetBegin(id, name, text, g) => Some(NetListed(id, name, text, g, t.networks))
    case NetListed(id, name, text, g, nets) =>
      var r := ValidateSharedNetwork(s.vmCidr, t.(networks := nets), text, g);
      Some(if r.Ok? then NetPlanned(Network(id, name, r.value.0, r.value.1)) else Done)
    case StartBegin(id) => Some(if GetVM(t, id).Some? then StartRow(GetVM(t, id).value) else Done)
    case StartRow(row) =>
      if row.net.mode == Shared then
        Some(match GetNetwork(t, row.net.networkId) case None => Done case Some(n) => StartNet(row, n))
      else if RoutedRange(row.net).Some? then Some(StartListed(row, None, t.networks))
      else None
    case StartNet(row, n) => Some(StartListed(row, Some(n), t.networks))
    case StartListed(row, own, nets) => if CheckFails(t, p) then Some(Done) else None
    case Reader(id) => Some(if GetVM(t, id).Some? then Holder(GetVM(t, id).value) else Done)
    case _ => None
  }

  /** The range a start check protects, and the id it ignores. */
  function Candidate(p: Proc): IPNet
    requires p.StartListed? && (p.own.None? ==> RoutedRange(p.row.net).Some?)
  {
    if p.own.Some? then p.own.value.cidr else RoutedRange(p.row.net).value
  }

  function IgnoreId(p: Proc): Id
    requires p.StartListed?
  {
    if p.own.Some? then p.own.value.id else p.row.id
  }

  /** findCIDROverlap at its second read: the networks listed before, the VMs listed now. */
  predicate CheckFails(t: Tables, p: Proc)
    requires p.StartListed?
  {
    (p.own.None? ==> RoutedRange(p.row.net).Some?) && OverlapFound(p.nets, t.vms, Candidate(p), IgnoreId(p))
  }

  /** One atomic step of a process. Inserts happen under ids never used before: ids are random. */
  function ActStep(s: Setup, w: World, pid: nat): World
    requires pid in w.procs
  {
    var p := w.procs[pid];
    var read := ReadStep(s, w.tables, p);
    if read.Some? then w.(procs := w.procs[pid := read.value])
    else
      var done := w.(procs := w.procs[pid := Done]);
      match p
      case CreatePlanned(row) =>
        if row.id in w.born || InsertVM(w.tables, row).None? then done
        else done.(tables := InsertVM(w.tables, row).value, born := w.born + {row.id})
      case NetPlanned(n) =>
        if n.id in w.born || InsertNetwork(w.tables, n).None? then done
        else done.(tables := InsertNetwork(w.tables, n).value, born := w.born + {n.id})
      case DropNetwork(id) => done.(tables := OrSame(w.tables, DeleteNetwork(w.tables, id)))
      case DropVM(id) => done.(tables := DeleteVM(w.tables, id))
      case StartRow(row) => w.(procs := w.procs[pid := StartPassed(row)], passed := w.passed + {row.id})
      case StartListed(row, _, _) => w.(procs := w.procs[pid := StartPassed(row)], passed := w.passed + {row.id})
      case _ => w
  }

  /** A call may write back the row it read, with any change outside the network columns. */
  predicate MayWrite(p: Proc, row: VM) {
    (p.StartRow? || p.StartPassed? || p.Holder?) && row.id == p.row.id && row.net == p.row.net
  }

  function Step(s: Setup, w: World, a: Action): World {
    match a
    case Spawn(pid, p) => if pid in w.procs || !Initial(p) then w else w.(procs := w.procs[pid := p])
    case Act(pid) => if pid in w.procs then ActStep(s, w, pid) else w
    case Write(pid, row) =>
      if pid in w.procs && MayWrite(w.procs[pid], row) then w.(tables := Put(w.tables, row)) else w
  }

  function Interleave(s: Setup, w: World, actions: seq<Action>): World
    decreases |actions|
  {
    if actions == [] then w else Interleave(s, Step(s, w, actions[0]), actions[1..])
  }

  // ---------------------------------------------------------------------------------------------
  // What is proved

  /** The row `id` is in the table with network columns `a`. */
  ghost predicate Registered(t: Tables, id: Id, a: Address) {
    exists v :: v in t.vms && v.id == id && v.net == a
  }

  /** The range of a row: its routed block, or its shared network's CIDR. */
  predicate HasRange(t: Tables, a: Address, c: IPNet) {
    if a.mode == Shared then exists n :: n in t.networks && n.id == a.networkId && n.cidr == c
    else RoutedRange(a) == Some(c)
  }

  predicate SameSharedNetwork(a: Address, b: Address) {
    a.mode == Shared && b.mode == Shared && a.networkId == b.networkId
  }

  /** No two registered VMs with overlapping ranges have both passed the start check; VMs of one shared
      network count as one range. */
  ghost predicate NoOverlappingStarts(w: World) {
    forall i, a, j, b, c, d |
      Registered(w.tables, i, a) && Registered(w.tables, j, b) && i in w.passed && j in w.passed && i != j
      && HasRange(w.tables, a, c) && HasRange(w.tables, b, d) && !SameSharedNetwork(a, b) ::
        !CidrOverlaps(c, d)
  }

  /** Primary keys, and VM ids different from network ids. */
  ghost predicate Keyed(w: World) {
    && (forall i, a, b :: Registered(w.tables, i, a) && Registered(w.tables, i, b) ==> a == b)
    && (forall n, m :: n in w.tables.networks && m in w.tables.networks && n.id == m.id ==> n == m)
    && (forall i, a, n :: Registered(w.tables, i, a) && n in w.tables.networks ==> i != n.id)
    && (forall i, a :: Registered(w.tables, i, a) ==> i in w.born)
    && (forall n :: n in w.tables.networks ==> n.id in w.born)
    && w.passed <= w.born
  }

  ghost predicate RowKnown(w: World, row: VM) {
    row.id in w.born && forall a :: Registered(w.tables, row.id, a) ==> a == row.net
  }

  /** A network found by a start check stays while the row that names it stays. */
  ghost predicate NetKnown(w: World, row: VM, n: Network) {
    && row.net.mode == Shared && n.id == row.net.networkId && n.id in w.born
    && (Registered(w.tables, row.id, row.net) ==> n in w.tables.networks)
  }

  ghost predicate ProcKnown(w: World, p: Proc) {
    match p
    case StartRow(row) => RowKnown(w, row)
    case StartNet(row, n) => RowKnown(w, row) && NetKnown(w, row, n)
    case StartListed(row, own, nets) =>
      RowKnown(w, row)
      && (if own.Some? then NetKnown(w, row, own.value) else row.net.mode != Shared && RoutedRange(row.net).Some?)
    case StartPassed(row) => RowKnown(w, row)
    case Holder(row) => RowKnown(w, row)
    case _ => true
  }

  ghost predicate Listing(w: World, pid: nat) {
    pid in w.procs && w.procs[pid].StartListed?
    && Registered(w.tables, w.procs[pid].row.id, w.procs[pid].row.net)
  }

  /** Of two start checks that have listed the networks, one has seen the other's. */
  ghost predicate ListingsMeet(w: World) {
    forall x, y :: Listing(w, x) && Listing(w, y) && w.procs[x].own.Some? && w.procs[y].own.Some? ==>
      w.procs[x].own.value in w.procs[y].nets || w.procs[y].own.value in w.procs[x].nets
  }

  ghost predicate PassedShared(w: World, i: Id, a: Address, n: Network) {
    Registered(w.tables, i, a) && i in w.passed && a.mode == Shared && n in w.tables.networks && n.id == a.networkId
  }

  /** A running start check that has missed a passed VM's network does not overlap it. */
  ghost predicate MissedAreApart(w: World) {
    forall x, i, a, n |
      Listing(w, x) && ProcKnown(w, w.procs[x]) && PassedShared(w, i, a, n)
      && i != w.procs[x].row.id && n !in w.procs[x].nets && n.id != IgnoreId(w.procs[x]) ::
        !CidrOverlaps(Candidate(w.procs[x]), n.cidr)
  }

  ghost predicate PassedHaveNetworks(w: World) {
    forall i, a :: Registered(w.tables, i, a) && i in w.passed && a.mode == Shared ==>
      exists n :: n in w.tables.networks && n.id == a.networkId
  }

  ghost predicate Safe(w: World) {
    && Keyed(w)
    && (forall pid :: pid in w.procs ==> ProcKnown(w, w.procs[pid]))
    && ListingsMeet(w)
    && MissedAreApart(w)
    && PassedHaveNetworks(w)
    && NoOverlappingStarts(w)
  }

  // ---------------------------------------------------------------------------------------------
  // Steps that change the tables

  lemma TablesKeepSafe(w: World, z: World)
    requires Safe(w) && Keyed(z) && z.passed == w.passed && z.procs == w.procs && w.born <= z.born
    requires forall i, a :: Registered(z.tables, i, a) && i in w.born ==> Registered(w.tables, i, a)
    requires forall n :: n in z.tables.networks && n.id in w.born ==> n in w.tables.networks
    requires forall i, a, n: Network |
               Registered(z.tables, i, a) && i in w.born && a.mode == Shared && n.id == a.networkId ::
               n in w.tables.networks ==> n in z.tables.networks
    ensures Safe(z)
  {
    hide CidrOverlaps, RoutedRange, Registered;
    forall pid | pid in z.procs
      ensures ProcKnown(z, z.procs[pid]) && ProcKnown(w, w.procs[pid])
      ensures Listing(z, pid) ==> Listing(w, pid)
    {
      assert ProcKnown(w, w.procs[pid]);
    }
    forall i, a | Registered(z.tables, i, a) && i in z.passed && a.mode == Shared
      ensures exists n :: n in z.tables.networks && n in w.tables.networks && n.id == a.networkId
    {
      var n :| n in w.tables.networks && n.id == a.networkId;
    }
    forall i, a, c | Registered(z.tables, i, a) && i in z.passed && HasRange(z.tables, a, c)
      ensures Registered(w.tables, i, a) && HasRange(w.tables, a, c)
    {
    }
    assert forall i, a, n :: PassedShared(z, i, a, n) ==> PassedShared(w, i, a, n);
  }

  lemma InsertVMRegistered(t: Tables, vm: VM)
    requires InsertVM(t, vm).Some?
    ensures forall i, a :: Registered(InsertVM(t, vm).value, i, a) <==>
                             Registered(t, i, a) || (i == vm.id && a == vm.net)
  {
    var u := InsertVM(t, vm).value;
    assert u.vms[0] == vm && u.vms[1..] == t.vms;
    forall i, a
      ensures Registered(u, i, a) <==> Registered(t, i, a) || (i == vm.id && a == vm.net)
    {
      if Registered(t, i, a) {
        var v :| v in t.vms && v.id == i && v.net == a;
        assert v in u.vms;
      }
    }
  }

  lemma InsertVMSafe(w: World, vm: VM)
    requires Safe(w) && vm.id !in w.born && InsertVM(w.tables, vm).Some?
    ensures Safe(w.(tables := InsertVM(w.tables, vm).value, born := w.born + {vm.id}))
  {
    hide Registered, ProcKnown, MissedAreApart, NoOverlappingStarts, ListingsMeet;
    InsertVMRegistered(w.tables, vm);
    var z := w.(tables := InsertVM(w.tables, vm).value, born := w.born + {vm.id});
    assert z.tables.networks == w.tables.networks;
    TablesKeepSafe(w, z);
  }

  lemma InsertNetworkSafe(w: World, n: Network)
    requires Safe(w) && n.id !in w.born && InsertNetwork(w.tables, n).Some?
    ensures Safe(w.(tables := InsertNetwork(w.tables, n).value, born := w.born + {n.id}))
  {
    hide ProcKnown, MissedAreApart, NoOverlappingStarts, ListingsMeet;
    var z := w.(tables := InsertNetwork(w.tables, n).value, born := w.born + {n.id});
    assert forall i, a :: Registered(z.tables, i, a) <==> Registered(w.tables, i, a);
    TablesKeepSafe(w, z);
  }

  lemma DeleteNetworkSafe(w: World, id: Id)
    requires Safe(w) && DeleteNetwork(w.tables, id).Some?
    ensures Safe(w.(tables := DeleteNetwork(w.tables, id).value))
  {
    hide ProcKnown, MissedAreApart, NoOverlappingStarts, ListingsMeet;
    var z := w.(tables := DeleteNetwork(w.tables, id).value);
    assert forall i, a :: Registered(z.tables, i, a) <==> Registered(w.tables, i, a);
    assert forall i, a :: Registered(w.tables, i, a) ==> a.networkId != id;
    TablesKeepSafe(w, z);
  }

  lemma DeleteVMSafe(w: World, id: Id)
    requires Safe(w)
    ensures Safe(w.(tables := DeleteVM(w.tables, id)))
  {
    hide ProcKnown, MissedAreApart, NoOverlappingStarts, ListingsMeet;
    var z := w.(tables := DeleteVM(w.tables, id));
    assert forall i, a :: Registered(z.tables, i, a) ==> Registered(w.tables, i, a);
    TablesKeepSafe(w, z);
  }

  lemma WriteSafe(w: World, row: VM)
    requires Safe(w) && RowKnown(w, row)
    ensures Safe(w.(tables := Put(w.tables, row)))
  {
    hide ProcKnown, MissedAreApart, NoOverlappingStarts, ListingsMeet;
    var z := w.(tables := Put(w.tables, row));
    ReplaceVMRows(w.tables.vms, row);
    forall i, a | Registered(z.tables, i, a)
      ensures Registered(w.tables, i, a)
    {
      var v :| v in z.tables.vms && v.id == i && v.net == a;
      if v == row && v !in w.tables.vms {
        var x :| x in w.tables.vms && x.id == row.id;
        assert Registered(w.tables, x.id, x.net);
      }
    }
    TablesKeepSafe(w, z);
  }

  // ---------------------------------------------------------------------------------------------
  // Steps that change what a process knows

  lemma NoOverlapUnchanged(w: World, z: World)
    requires Keyed(w) && NoOverlappingStarts(w) && z.tables == w.tables && z.passed == w.passed && z.born == w.born
    ensures Keyed(z) && NoOverlappingStarts(z)
  {
  }

  lemma ProcsKeepListings(w: World, pid: nat, p: Proc)
    requires Safe(w) && ProcKnown(w, p) && (p.StartListed? ==> p.nets == w.tables.networks)
    ensures ListingsMeet(w.(procs := w.procs[pid := p]))
  {
    hide CidrOverlaps, RoutedRange, Registered, HasRange, NoOverlappingStarts, Keyed, MissedAreApart,
         PassedHaveNetworks;
    var z := w.(procs := w.procs[pid := p]);
    forall x, y | Listing(z, x) && Listing(z, y) && z.procs[x].own.Some? && z.procs[y].own.Some?
      ensures z.procs[x].own.value in z.procs[y].nets || z.procs[y].own.value in z.procs[x].nets
    {
      assert ProcKnown(w, z.procs[x]) && ProcKnown(w, z.procs[y]);
      if x != pid && y != pid {
        assert Listing(w, x) && Listing(w, y);
      }
    }
  }

  lemma ProcsKeepMissed(w: World, pid: nat, p: Proc)
    requires Safe(w) && (p.StartListed? ==> p.nets == w.tables.networks)
    ensures MissedAreApart(w.(procs := w.procs[pid := p]))
  {
    hide CidrOverlaps, RoutedRange, Registered, HasRange, NoOverlappingStarts, Keyed, ListingsMeet, PassedHaveNetworks;
    var z := w.(procs := w.procs[pid := p]);
    forall x, i, a, n |
      Listing(z, x) && ProcKnown(z, z.procs[x]) && PassedShared(z, i, a, n)
      && i != z.procs[x].row.id && n !in z.procs[x].nets && n.id != IgnoreId(z.procs[x])
      ensures !CidrOverlaps(Candidate(z.procs[x]), n.cidr)
    {
      assert PassedShared(w, i, a, n);
      assert x != pid && Listing(w, x) && ProcKnown(w, w.procs[x]);
    }
  }

  lemma ProcsKeepSafe(w: World, pid: nat, p: Proc)
    requires Safe(w) && ProcKnown(w, p) && (p.StartListed? ==> p.nets == w.tables.networks)
    ensures Safe(w.(procs := w.procs[pid := p]))
  {
    hide RoutedRange, Registered, NoOverlappingStarts, Keyed, ListingsMeet, MissedAreApart;
    var z := w.(procs := w.procs[pid := p]);
    NoOverlapUnchanged(w, z);
    ProcsKeepListings(w, pid, p);
    ProcsKeepMissed(w, pid, p);
    assert forall q :: ProcKnown(w, q) <==> ProcKnown(z, q);
  }

  /** A routed range still in the table was seen by the check. */
  lemma RoutedSeen(w: World, p: Proc, i: Id, a: Address)
    requires Keyed(w) && ProcKnown(w, p) && p.StartListed? && !CheckFails(w.tables, p)
    requires Registered(w.tables, i, a) && i != IgnoreId(p) && RoutedRange(a).Some?
    ensures !CidrOverlaps(Candidate(p), RoutedRange(a).value)
  {
    var v :| v in w.tables.vms && v.id == i && v.net == a;
    assert !VMMeets(v, Candidate(p), IgnoreId(p));
  }

  lemma NetworkSeen(w: World, p: Proc, n: Network)
    requires ProcKnown(w, p) && p.StartListed? && !CheckFails(w.tables, p)
    requires n in p.nets && n.id != IgnoreId(p)
    ensures !CidrOverlaps(Candidate(p), n.cidr)
  {
    assert !NetworkMeets(n, Candidate(p), IgnoreId(p));
  }

  /** The id a check ignores is no other VM's id. */
  lemma IgnoredIsOwn(w: World, pid: nat, i: Id, a: Address)
    requires Safe(w) && Listing(w, pid) && Registered(w.tables, i, a) && i != w.procs[pid].row.id
    ensures i != IgnoreId(w.procs[pid])
  {
    hide MissedAreApart, NoOverlappingStarts, ListingsMeet, PassedHaveNetworks;
    assert ProcKnown(w, w.procs[pid]);
  }

  /** A passing check overlaps no VM that passed before. */
  lemma PassApart(w: World, pid: nat, i: Id, a: Address, c: IPNet)
    requires Safe(w) && Listing(w, pid) && !CheckFails(w.tables, w.procs[pid])
    requires Registered(w.tables, i, a) && i in w.passed && i != w.procs[pid].row.id && HasRange(w.tables, a, c)
    requires !SameSharedNetwork(a, w.procs[pid].row.net)
    ensures !CidrOverlaps(Candidate(w.procs[pid]), c)
  {
    hide NoOverlappingStarts, ListingsMeet, CidrOverlaps, RoutedRange, CheckFails, Registered;
    var p := w.procs[pid];
    assert ProcKnown(w, p);
    IgnoredIsOwn(w, pid, i, a);
    if a.mode == Shared {
      var n :| n in w.tables.networks && n.id == a.networkId && n.cidr == c;
      assert PassedShared(w, i, a, n);
      assert n.id != IgnoreId(p);
      if n in p.nets {
        NetworkSeen(w, p, n);
      }
    } else {
      RoutedSeen(w, p, i, a);
    }
  }

  /** A passing shared VM's network overlaps no running check that has missed it. */
  lemma PassMissedApart(w: World, pid: nat, x: nat)
    requires Safe(w) && Listing(w, pid) && !CheckFails(w.tables, w.procs[pid]) && w.procs[pid].own.Some?
    requires Listing(w, x) && w.procs[x].row.id != w.procs[pid].row.id
    requires w.procs[pid].own.value !in w.procs[x].nets && w.procs[pid].own.value.id != IgnoreId(w.procs[x])
    ensures ProcKnown(w, w.procs[x]) && !CidrOverlaps(w.procs[pid].own.value.cidr, Candidate(w.procs[x]))
  {
    hide NoOverlappingStarts, MissedAreApart, PassedHaveNetworks, CidrOverlaps, RoutedRange, CheckFails, Registered;
    var p, q := w.procs[pid], w.procs[x];
    assert ProcKnown(w, p) && ProcKnown(w, q);
    if q.own.Some? {
      NetworkSeen(w, p, q.own.value);
    } else {
      IgnoredIsOwn(w, pid, q.row.id, q.row.net);
      RoutedSeen(w, p, q.row.id, q.row.net);
    }
  }

  /** The range of the row whose check is running. */
  lemma OwnRange(w: World, pid: nat, c: IPNet)
    requires Safe(w) && Listing(w, pid) && HasRange(w.tables, w.procs[pid].row.net, c)
    ensures c == Candidate(w.procs[pid])
  {
    hide NoOverlappingStarts, MissedAreApart, PassedHaveNetworks, ListingsMeet, RoutedRange;
    assert ProcKnown(w, w.procs[pid]);
  }

  function Passed(w: World, pid: nat, row: VM): World {
    w.(procs := w.procs[pid := StartPassed(row)], passed := w.passed + {row.id})
  }

  lemma PassNoOverlap(w: World, pid: nat)
    requires Safe(w) && pid in w.procs && w.procs[pid].StartListed? && !CheckFails(w.tables, w.procs[pid])
    ensures NoOverlappingStarts(Passed(w, pid, w.procs[pid].row))
  {
    hide MissedAreApart, PassedHaveNetworks, ListingsMeet, CidrOverlaps, RoutedRange, CheckFails, Registered,
         HasRange, Candidate;
    var row := w.procs[pid].row;
    var z := Passed(w, pid, row);
    assert ProcKnown(w, w.procs[pid]);
    forall i, a, j, b, c, d |
      Registered(z.tables, i, a) && Registered(z.tables, j, b) && i in z.passed && j in z.passed && i != j
      && HasRange(z.tables, a, c) && HasRange(z.tables, b, d) && !SameSharedNetwork(a, b)
      ensures !CidrOverlaps(c, d)
    {
      if i == row.id && i !in w.passed {
        OwnRange(w, pid, c);
        PassApart(w, pid, j, b, d);
      } else if j == row.id && j !in w.passed {
        OwnRange(w, pid, d);
        PassApart(w, pid, i, a, c);
        OverlapSymmetric(d, c);
      }
    }
  }

  lemma PassMissed(w: World, pid: nat)
    requires Safe(w) && pid in w.procs && w.procs[pid].StartListed? && !CheckFails(w.tables, w.procs[pid])
    ensures MissedAreApart(Passed(w, pid, w.procs[pid].row))
  {
    hide NoOverlappingStarts, ListingsMeet, CidrOverlaps, RoutedRange, CheckFails, Registered;
    var p := w.procs[pid];
    var z := Passed(w, pid, p.row);
    assert ProcKnown(w, p);
    forall x, i, a, n |
      Listing(z, x) && ProcKnown(z, z.procs[x]) && PassedShared(z, i, a, n)
      && i != z.procs[x].row.id && n !in z.procs[x].nets && n.id != IgnoreId(z.procs[x])
      ensures !CidrOverlaps(Candidate(z.procs[x]), n.cidr)
    {
      assert x != pid && Listing(w, x) && ProcKnown(w, w.procs[x]);
      if i in w.passed {
        assert PassedShared(w, i, a, n);
      } else {
        assert i == p.row.id && n == p.own.value;
        PassMissedApart(w, pid, x);
        OverlapSymmetric(n.cidr, Candidate(z.procs[x]));
      }
    }
  }

  lemma PassSafe(w: World, pid: nat)
    requires Safe(w) && pid in w.procs && w.procs[pid].StartListed? && !CheckFails(w.tables, w.procs[pid])
    ensures Safe(Passed(w, pid, w.procs[pid].row))
  {
    hide MissedAreApart, NoOverlappingStarts, CidrOverlaps, RoutedRange, CheckFails, Registered;
    var p := w.procs[pid];
    var z := Passed(w, pid, p.row);
    PassNoOverlap(w, pid);
    PassMissed(w, pid);
    assert ProcKnown(w, p);
    assert forall q :: ProcKnown(w, q) <==> ProcKnown(z, q);
    assert forall x :: Listing(z, x) ==> Listing(w, x) && z.procs[x] == w.procs[x];
  }

  /** A row without a range adds no pair of overlapping ranges. */
  lemma PassUnrangedNoOverlap(w: World, pid: nat)
    requires Safe(w) && pid in w.procs && w.procs[pid].StartRow?
    requires w.procs[pid].row.net.mode != Shared && RoutedRange(w.procs[pid].row.net).None?
    ensures NoOverlappingStarts(Passed(w, pid, w.procs[pid].row))
  {
    hide CidrOverlaps, RoutedRange, Registered, ListingsMeet, MissedAreApart, PassedHaveNetworks, Keyed;
    var row := w.procs[pid].row;
    var z := Passed(w, pid, row);
    assert ProcKnown(w, w.procs[pid]);
    forall i, a, c | Registered(z.tables, i, a) && i in z.passed && HasRange(z.tables, a, c)
      ensures i in w.passed
    {
    }
  }

  lemma PassUnrangedMissed(w: World, pid: nat)
    requires Safe(w) && pid in w.procs && w.procs[pid].StartRow?
    requires w.procs[pid].row.net.mode != Shared
    ensures var z := Passed(w, pid, w.procs[pid].row); MissedAreApart(z) && ListingsMeet(z) && PassedHaveNetworks(z)
  {
    hide CidrOverlaps, RoutedRange, Registered, Candidate, IgnoreId, Keyed, NoOverlappingStarts;
    var row := w.procs[pid].row;
    var z := Passed(w, pid, row);
    assert ProcKnown(w, w.procs[pid]);
    assert forall x :: Listing(z, x) ==> Listing(w, x) && z.procs[x] == w.procs[x];
    assert forall i, a, n :: PassedShared(z, i, a, n) ==> PassedShared(w, i, a, n);
    assert forall q :: ProcKnown(w, q) <==> ProcKnown(z, q);
  }

  /** A row without a range passes without listing anything. */
  lemma PassUnrangedSafe(w: World, pid: nat)
    requires Safe(w) && pid in w.procs && w.procs[pid].StartRow?
    requires w.procs[pid].row.net.mode != Shared && RoutedRange(w.procs[pid].row.net).None?
    ensures Safe(Passed(w, pid, w.procs[pid].row))
  {
    hide RoutedRange, Registered, NoOverlappingStarts, MissedAreApart, ListingsMeet, PassedHaveNetworks;
    var row := w.procs[pid].row;
    var z := Passed(w, pid, row);
    PassUnrangedNoOverlap(w, pid);
    PassUnrangedMissed(w, pid);
    assert ProcKnown(w, w.procs[pid]);
    assert forall q :: ProcKnown(w, q) <==> ProcKnown(z, q);
  }

  // ---------------------------------------------------------------------------------------------
  // All steps, all interleavings

  lemma FoundRow(w: World, id: Id)
    requires Safe(w) && GetVM(w.tables, id).Some?
    ensures RowKnown(w, GetVM(w.tables, id).value)
  {
    hide MissedAreApart, NoOverlappingStarts, ListingsMeet, PassedHaveNetworks, ProcKnown;
    var v := GetVM(w.tables, id).value;
    assert Registered(w.tables, v.id, v.net);
  }

  lemma ReadSafe(s: Setup, w: World, pid: nat)
    requires Safe(w) && pid in w.procs && ReadStep(s, w.tables, w.procs[pid]).Some?
    ensures Safe(w.(procs := w.procs[pid := ReadStep(s, w.tables, w.procs[pid]).value]))
  {
    hide MissedAreApart, NoOverlappingStarts, ListingsMeet, PassedHaveNetworks, RoutedRange, CheckFails;
    var p, q := w.procs[pid], ReadStep(s, w.tables, w.procs[pid]).value;
    assert ProcKnown(w, p);
    if p.StartBegin? && q.StartRow? {
      FoundRow(w, p.id);
    } else if p.Reader? && q.Holder? {
      FoundRow(w, p.id);
    } else if p.StartRow? && q.StartNet? {
      assert NetKnown(w, q.row, q.net);
    }
    ProcsKeepSafe(w, pid, q);
  }

  lemma ActSafe(s: Setup, w: World, pid: nat)
    requires Safe(w) && pid in w.procs
    ensures Safe(ActStep(s, w, pid))
  {
    hide Safe, CheckFails, RoutedRange;
    var p := w.procs[pid];
    if ReadStep(s, w.tables, p).Some? {
      ReadSafe(s, w, pid);
    } else if p.StartRow? {
      PassUnrangedSafe(w, pid);
    } else if p.StartListed? {
      PassSafe(w, pid);
    } else {
      WriteStepSafe(s, w, pid);
    }
  }

  lemma WriteStepSafe(s: Setup, w: World, pid: nat)
    requires Safe(w) && pid in w.procs && ReadStep(s, w.tables, w.procs[pid]).None?
    requires !w.procs[pid].StartRow? && !w.procs[pid].StartListed?
    ensures Safe(ActStep(s, w, pid))
  {
    hide Safe, InsertVM, InsertNetwork, DeleteNetwork, DeleteVM;
    var p := w.procs[pid];
    var done := w.(procs := w.procs[pid := Done]);
    ProcsKeepSafe(w, pid, Done);
    match p {
      case CreatePlanned(row) =>
        if !(row.id in w.born || InsertVM(w.tables, row).None?) {
          InsertVMSafe(done, row);
        }
      case NetPlanned(n) =>
        if !(n.id in w.born || InsertNetwork(w.tables, n).None?) {
          InsertNetworkSafe(done, n);
        }
      case DropNetwork(id) =>
        if DeleteNetwork(w.tables, id).Some? {
          DeleteNetworkSafe(done, id);
        }
      case DropVM(id) => DeleteVMSafe(done, id);
      case _ =>
    }
  }

  lemma StepSafe(s: Setup, w: World, a: Action)
    requires Safe(w)
    ensures Safe(Step(s, w, a))
  {
    hide MissedAreApart, NoOverlappingStarts, ListingsMeet, PassedHaveNetworks, Keyed;
    match a {
      case Spawn(pid, p) =>
        if pid !in w.procs && Initial(p) {
          ProcsKeepSafe(w, pid, p);
        }
      case Act(pid) =>
        if pid in w.procs {
          ActSafe(s, w, pid);
        }
      case Write(pid, row) =>
        if pid in w.procs && MayWrite(w.procs[pid], row) {
          assert ProcKnown(w, w.procs[pid]);
          WriteSafe(w, row);
        }
    }
  }

  /** A start: any registry with distinct keys, no call under way and no check passed. */
  ghost predicate Start(w: World) {
    Keyed(w) && w.procs == map[] && w.passed == {}
  }

  /** In every interleaving, from every registry, no two registered VMs whose ranges overlap have both passed
      the start check. */
  lemma {:induction false} InterleavingsSafe(s: Setup, w: World, actions: seq<Action>)
    requires Safe(w)
    ensures Safe(Interleave(s, w, actions))
    decreases |actions|
  {
    hide Safe, Step;
    if actions == [] {
    } else {
      StepSafe(s, w, actions[0]);
      InterleavingsSafe(s, Step(s, w, actions[0]), actions[1..]);
    }
  }

  lemma NoOverlappingStartsEver(s: Setup, w: World, actions: seq<Action>)
    requires Start(w)
    ensures NoOverlappingStarts(Interleave(s, w, actions))
  {
    assert Safe(w);
    InterleavingsSafe(s, w, actions);
  }

  // ---------------------------------------------------------------------------------------------
  // Overlapping rows do appear

  lemma {:induction false} InterleaveSnoc(s: Setup, w: World, actions: seq<Action>, a: Action)
    ensures Interleave(s, w, actions + [a]) == Step(s, Interleave(s, w, actions), a)
    decreases |actions|
  {
    if actions == [] {
      assert [a][1..] == [];
    } else {
      assert (actions + [a])[1..] == actions[1..] + [a];
      InterleaveSnoc(s, Step(s, w, actions[0]), actions[1..], a);
    }
  }

  /** The plans that CreateNetwork and CreateVM make for the first block of an empty registry. */
  lemma FirstPlans(s: Setup, row: VM)
    requires 1 <= s.vmCidr.ones <= 30
    ensures P2PCount(s.vmCidr) > 0
    ensures var b := P2PBlock(s.vmCidr, 0);
            ValidateSharedNetwork(s.vmCidr, EMPTY_TABLES.(networks := []), Some(CidrText(b.ip, 30)), None)
            == Ok((b, b.ip + 1))
            && AllocateP2P(s.vmCidr, {}, []) == Ok(Lease(b.ip + 1, b.ip + 2, 30))
            && RoutedRange(Leased(row.(net := row.net.(mode := Routed)), Lease(b.ip + 1, b.ip + 2, 30)).net) == Some(b)
  {
    hide CidrOverlaps, Contains, Low, Pow2, CidrWithin, ShiftedOne32, P2PCount, P2PBlock, And;
    FirstBlockExists(s.vmCidr);
    var b := P2PBlock(s.vmCidr, 0);
    P2PBlockWithin(s.vmCidr, 0);
    MaskedHost(b);
    FirstGateway(b);
    assert BlockFree(b, {}, []);
    assert LowestBlock(s.vmCidr, {}, [], 0) == Some(0);
  }

  lemma FirstGateway(b: IPNet)
    requires b.ones == 30 && b.ip + 4 <= 0x1_0000_0000
    ensures Contains(b, b.ip + 1) && Add32(b.ip, 1) == b.ip + 1
    ensures Add32(Add32(b.ip, ShiftedOne32(32 - b.ones)), 0xffff_ffff) != b.ip + 1
  {
    hide Contains, Low, Pow2;
    Pow2Values();
    ContainsIffInRange(b, b.ip + 1);
    WithinLastAddress(b);
  }

  const EMPTY_WORLD := World(EMPTY_TABLES, map[], {}, {})

  /** The two reads of a CreateNetwork that is alone. */
  lemma NetworkReads(s: Setup, id: Id, name: string, text: Option<CidrText>, g: Option<u32>)
    ensures var r := ValidateSharedNetwork(s.vmCidr, EMPTY_TABLES, text, g);
            var begun := World(EMPTY_TABLES, map[0 := NetBegin(id, name, text, g)], {}, {});
            r.Ok? ==> Step(s, Step(s, begun, Act(0)), Act(0)) ==
                      World(EMPTY_TABLES, map[0 := NetPlanned(Network(id, name, r.value.0, r.value.1))], {}, {})
  {
    hide ValidateSharedNetwork;
    var begun := World(EMPTY_TABLES, map[0 := NetBegin(id, name, text, g)], {}, {});
    assert Step(s, begun, Act(0)) == World(EMPTY_TABLES, map[0 := NetListed(id, name, text, g, [])], {}, {});
    assert EMPTY_TABLES.(networks := []) == EMPTY_TABLES;
  }

  /** CreateNetwork has planned. */
  lemma NetworkPlannedFirst(s: Setup, row: VM) returns (actions: seq<Action>)
    requires 1 <= s.vmCidr.ones <= 30 && P2PCount(s.vmCidr) > 0
    ensures var b := P2PBlock(s.vmCidr, 0);
            Interleave(s, EMPTY_WORLD, actions) ==
            World(EMPTY_TABLES, map[0 := NetPlanned(Network("b", "net", b, b.ip + 1))], {}, {})
  {
    hide ValidateSharedNetwork, AllocateP2P, RoutedRange, Interleave, P2PBlock, ReadStep, ActStep;
    FirstPlans(s, row);
    var w, b := EMPTY_WORLD, P2PBlock(s.vmCidr, 0);
    var begin := NetBegin("b", "net", Some(CidrText(b.ip, 30)), None);
    var p1 := [Spawn(0, begin)] + [Act(0)];
    actions := p1 + [Act(0)];
    FirstStep(s, w, Spawn(0, begin));
    InterleaveSnoc(s, w, [Spawn(0, begin)], Act(0));
    InterleaveSnoc(s, w, p1, Act(0));
    assert EMPTY_TABLES.(networks := []) == EMPTY_TABLES;
    NetworkReads(s, "b", "net", Some(CidrText(b.ip, 30)), None);
  }

  /** Both calls have planned and neither has inserted. */
  lemma BothPlanned(s: Setup, row: VM) returns (actions: seq<Action>)
    requires 1 <= s.vmCidr.ones <= 30 && row.net.mode == Routed && P2PCount(s.vmCidr) > 0
    ensures var b := P2PBlock(s.vmCidr, 0);
            Interleave(s, EMPTY_WORLD, actions) ==
            World(EMPTY_TABLES, map[0 := NetPlanned(Network("b", "net", b, b.ip + 1)),
                                    1 := CreatePlanned(Leased(row, Lease(b.ip + 1, b.ip + 2, 30)))], {}, {})
  {
    hide ValidateSharedNetwork, AllocateP2P, RoutedRange, Interleave, P2PBlock;
    FirstPlans(s, row);
    var p2 := NetworkPlannedFirst(s, row);
    var p3 := p2 + [Spawn(1, CreateBegin(row))];
    var p4 := p3 + [Act(1)];
    actions := p4 + [Act(1)];
    InterleaveSnoc(s, EMPTY_WORLD, p2, Spawn(1, CreateBegin(row)));
    InterleaveSnoc(s, EMPTY_WORLD, p3, Act(1));
    assert UsedGuestIPs(EMPTY_TABLES) == {} && NetworkCidrs(EMPTY_TABLES) == [];
    InterleaveSnoc(s, EMPTY_WORLD, p4, Act(1));
  }

  lemma FirstStep(s: Setup, w: World, a: Action)
    ensures Interleave(s, w, [a]) == Step(s, w, a)
  {
    InterleaveSnoc(s, w, [], a);
    assert [] + [a] == [a];
  }

  lemma EmptyStart()
    ensures Start(EMPTY_WORLD)
  {
  }

  /** For every vm_cidr, CreateNetwork and CreateVM can interleave so that both rows claim its first /30. */
  lemma OverlappingRowsAppear(s: Setup, row: VM) returns (actions: seq<Action>, n: Network, v: VM)
    requires 1 <= s.vmCidr.ones <= 30 && row.net.mode == Routed && row.id == "a"
    ensures Start(EMPTY_WORLD)
    ensures var t := Interleave(s, EMPTY_WORLD, actions).tables;
            n in t.networks && v in t.vms && RoutedRange(v.net).Some? && CidrOverlaps(RoutedRange(v.net).value, n.cidr)
  {
    hide AllocateP2P, CidrOverlaps, RoutedRange, Interleave, Step, Start, ValidateSharedNetwork;
    EmptyStart();
    FirstPlans(s, row);
    var b := P2PBlock(s.vmCidr, 0);
    n := Network("b", "net", b, b.ip + 1);
    v := Leased(row, Lease(b.ip + 1, b.ip + 2, 30));
    assert row.net.(mode := Routed) == row.net && row.(net := row.net) == row;
    var before := BothPlanned(s, row);
    actions := before + [Act(0)] + [Act(1)];
    InterleaveSnoc(s, EMPTY_WORLD, before, Act(0));
    InterleaveSnoc(s, EMPTY_WORLD, before + [Act(0)], Act(1));
    assert v.id == "a" && n.id == "b" && "a"[0] != "b"[0];
    BothInserted(s, n, v);
    SelfOverlap(b);
  }

  lemma BothInserted(s: Setup, n: Network, v: VM)
    requires n.id != v.id
    ensures var w := World(EMPTY_TABLES, map[0 := NetPlanned(n), 1 := CreatePlanned(v)], {}, {});
            Step(s, Step(s, w, Act(0)), Act(1)).tables == EMPTY_TABLES.(networks := [n], vms := [v])
  {
  }

  lemma SelfOverlap(b: IPNet)
    ensures CidrOverlaps(b, b)
  {
  }
}
