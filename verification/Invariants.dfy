/** What every registry reached by calls taken one at a time satisfies: an address plan without overlaps, host
    ports used once, and references that resolve. */
module Invariants {
  import opened Cidr
  import opened Model
  import opened Database
  import opened Allocation
  import opened Lifecycle

  // ---------------------------------------------------------------------------------------------
  // The address plan

  predicate NetworkPlaced(vmCidr: IPNet, n: Network) {
    n.cidr.ones <= 30 && CidrWithin(vmCidr, n.cidr) && First(n.cidr) < n.gateway < Last(n.cidr)
  }

  /** A routed row owns the aligned /30 around its two addresses. */
  predicate RoutedPlaced(vmCidr: IPNet, a: Address) {
    a.hostIP.Some? && a.prefix == 30 && a.guestIP == a.hostIP.value + 1
    && RoutedRange(a).Some? && RoutedRange(a).value.ip == a.hostIP.value - 1
    && CidrWithin(vmCidr, RoutedRange(a).value)
  }

  /** A shared row's guest is a usable host address of the network, and its host address is the gateway. */
  predicate SharedPlaced(n: Network, a: Address) {
    n.id == a.networkId && n.id != "" && a.hostIP == Some(n.gateway) && a.prefix == n.cidr.ones
    && First(n.cidr) < a.guestIP < Last(n.cidr) && a.guestIP != n.gateway
  }

  predicate VMPlaced(vmCidr: IPNet, networks: seq<Network>, a: Address) {
    || (a.mode == Routed && RoutedPlaced(vmCidr, a)
        && forall n :: n in networks ==> !CidrOverlaps(RoutedRange(a).value, n.cidr))
    || (a.mode == Shared && exists n :: n in networks && SharedPlaced(n, a))
  }

  predicate NoneTwice(networks: seq<Network>) {
    networks == [] || (networks[0] !in networks[1..] && NoneTwice(networks[1..]))
  }

  predicate NetworksApart(networks: seq<Network>) {
    NoneTwice(networks)
    && forall n, m :: n in networks && m in networks && n != m ==> n.id != m.id && !CidrOverlaps(n.cidr, m.cidr)
  }

  predicate AddressPlan(vmCidr: IPNet, t: Tables) {
    && Distinct(t.vms)
    && NetworksApart(t.networks)
    && (forall n :: n in t.networks ==> NetworkPlaced(vmCidr, n))
    && (forall v :: v in t.vms ==> VMPlaced(vmCidr, t.networks, v.net))
  }

  // ---------------------------------------------------------------------------------------------
  // Host ports and references

  predicate PortPlan(t: Tables) {
    && (forall r, q :: r in t.ingress && q in t.ingress && r.hostPort == q.hostPort ==> r == q)
    && (forall v, r :: v in t.vms && r in t.ingress ==> v.sshPort != r.hostPort)
  }

  predicate VMRefs(t: Tables, v: VM) {
    && v.id != ""
    && (if v.egressPolicyId == "" then v.egressMode == AllowAll || v.egressMode == DenyAll
        else exists p :: p in t.policies && p.id == v.egressPolicyId && p.mode == v.egressMode)
    && (v.sshKeyId != "" ==> v.sshKeyId in t.sshKeys)
    && v.kernelId in t.kernels && t.kernels[v.kernelId] == v.kernelPath
    && v.baseImageId in t.images
  }

  predicate HasVM(t: Tables, id: Id) {
    exists v :: v in t.vms && v.id == id
  }

  predicate PoliciesKnown(policies: seq<EgressPolicy>) {
    && (forall p, q :: p in policies && q in policies && p.id == q.id ==> p == q)
    && (forall p :: p in policies ==> p.mode == AllowAll || p.mode == DenyAll || p.mode == Restricted)
  }

  predicate RefPlan(t: Tables) {
    && PoliciesKnown(t.policies)
    && (forall v :: v in t.vms ==> VMRefs(t, v))
    && (forall r :: r in t.ingress ==> HasVM(t, r.vmId))
    && (forall j :: j in t.jobs ==> HasVM(t, j.vmId))
    && (forall k :: k in t.kernelTests ==> k in t.kernels)
  }

  predicate Inv(s: Setup, t: Tables) {
    AddressPlan(s.vmCidr, t) && PortPlan(t) && RefPlan(t)
  }

  // ---------------------------------------------------------------------------------------------
  // Replacing a row

  /** The columns that no call changes in a row. */
  predicate SameIdentity(v: VM, w: VM) {
    v.id == w.id && v.name == w.name && v.sshPort == w.sshPort && v.net == w.net
    && v.sshKeyId == w.sshKeyId && v.kernelId == w.kernelId && v.kernelPath == w.kernelPath
    && v.baseImageId == w.baseImageId
  }

  lemma UpdateKeepsDistinct(t: Tables, vm: VM)
    requires Distinct(t.vms) && UpdateVM(t, vm).Some? && exists x :: x in t.vms && x.id == vm.id
    ensures UpdateVM(t, vm).value == t.(vms := ReplaceVM(t.vms, vm)) && Distinct(ReplaceVM(t.vms, vm))
  {
    hide Distinct;
    forall w | w in t.vms && Clash(vm, w)
      ensures w.id == vm.id
    {
    }
    ReplaceVMDistinct(t.vms, vm);
  }

  lemma UpdateKeepsInv(s: Setup, t: Tables, old_: VM, vm: VM)
    requires Inv(s, t) && old_ in t.vms && SameIdentity(vm, old_) && VMRefs(t, vm)
    requires UpdateVM(t, vm).Some?
    ensures Inv(s, UpdateVM(t, vm).value) && vm in UpdateVM(t, vm).value.vms
    ensures UpdateVM(t, vm).value == t.(vms := ReplaceVM(t.vms, vm))
  {
    hide VMPlaced, NetworksApart, NetworkPlaced, Distinct, UpdateVM, ReplaceVM;
    var u := t.(vms := ReplaceVM(t.vms, vm));
    assert exists x :: x in t.vms && x.id == vm.id;
    UpdateKeepsDistinct(t, vm);
    ReplaceVMRows(t.vms, vm);
    forall id | HasVM(t, id)
      ensures HasVM(u, id)
    {
      var v :| v in t.vms && v.id == id;
      assert v in u.vms || vm in u.vms;
    }
    assert forall v :: v in u.vms ==> VMRefs(t, v) && VMRefs(u, v);
  }

  /** Writing back a row whose unique columns are unchanged never fails. */
  lemma SameKeysUpdate(t: Tables, old_: VM, vm: VM)
    requires Distinct(t.vms) && old_ in t.vms && SameIdentity(vm, old_) && vm.tapName == old_.tapName
    ensures UpdateVM(t, vm) == Some(t.(vms := ReplaceVM(t.vms, vm)))
  {
    forall w | w in t.vms && Clash(vm, w)
      ensures w.id == vm.id
    {
      DistinctRows(t.vms, old_, w);
    }
  }

  lemma PutKeepsInv(s: Setup, t: Tables, old_: VM, vm: VM)
    requires Inv(s, t) && old_ in t.vms && SameIdentity(vm, old_) && vm.tapName == old_.tapName && VMRefs(t, vm)
    ensures UpdateVM(t, vm) == Some(Put(t, vm)) && Put(t, vm) == t.(vms := ReplaceVM(t.vms, vm))
    ensures Inv(s, Put(t, vm)) && vm in Put(t, vm).vms
  {
    SameKeysUpdate(t, old_, vm);
    UpdateKeepsInv(s, t, old_, vm);
  }

  // ---------------------------------------------------------------------------------------------
  // CreateVM

  lemma PlannedRouted(s: Setup, t: Tables, a: Address)
    requires s.vmCidr.ones <= 30
    requires AllocateP2P(s.vmCidr, UsedGuestIPs(t), NetworkCidrs(t)).Ok?
    requires var l := AllocateP2P(s.vmCidr, UsedGuestIPs(t), NetworkCidrs(t)).value;
             a.mode == Routed && a.hostIP == Some(l.host) && a.guestIP == l.guest && a.prefix == l.prefix
    ensures VMPlaced(s.vmCidr, t.networks, a)
  {
    hide CidrWithin, Low, Pow2;
    P2PComplete(s.vmCidr, UsedGuestIPs(t), NetworkCidrs(t));
    var b := RoutedRange(a).value;
    forall n | n in t.networks
      ensures !CidrOverlaps(b, n.cidr)
    {
      var i :| 0 <= i < |t.networks| && t.networks[i] == n;
      assert NetworkCidrs(t)[i] in NetworkCidrs(t);
    }
  }

  lemma PlannedShared(n: Network, used: set<u32>)
    requires AllocateShared(n, used).Ok?
    ensures var l := AllocateShared(n, used).value;
            l.host == n.gateway && l.prefix == n.cidr.ones && First(n.cidr) < l.guest < Last(n.cidr)
            && l.guest != n.gateway && l.guest !in used
  {
    SharedSizeFits(n.cidr);
  }

  lemma PlanVMPlaced(s: Setup, t: Tables, req: CreateRequest)
    requires Inv(s, t) && PlanVM(s, t, req).Ok?
    ensures VMPlaced(s.vmCidr, t.networks, PlanVM(s, t, req).value.net)
    ensures VMRefs(t, PlanVM(s, t, req).value)
    ensures PlanVM(s, t, req).value.sshPort !in UsedIngressHostPorts(t)
  {
    hide OverlapFound, CidrWithin, CidrOverlaps, LowestBlock, LowestHost, TapNameForID, NetworksApart, RoutedPlaced;
    var vm := PlanVM(s, t, req).value;
    if vm.net.mode == Routed {
      PlannedRouted(s, t, vm.net);
    } else {
      var n := GetNetwork(t, req.networkId).value;
      PlannedShared(n, UsedGuestIPs(t));
      assert SharedPlaced(n, vm.net);
    }
  }

  lemma CreateVMKeepsInv(s: Setup, t: Tables, req: CreateRequest)
    requires Inv(s, t)
    ensures Inv(s, CreateVM(s, t, req).0)
  {
    if CreateVM(s, t, req).1.Ok? {
      var vm := CreateVM(s, t, req).1.value;
      PlanVMPlaced(s, t, req);
      InsertKeepsInv(s, t, vm);
    }
  }

  lemma InsertKeepsInv(s: Setup, t: Tables, vm: VM)
    requires Inv(s, t) && InsertVM(t, vm).Some? && VMPlaced(s.vmCidr, t.networks, vm.net) && VMRefs(t, vm)
    requires vm.sshPort !in UsedIngressHostPorts(t)
    ensures Inv(s, InsertVM(t, vm).value)
  {
    var u := InsertVM(t, vm).value;
    assert u.vms[1..] == t.vms;
    forall id | HasVM(t, id)
      ensures HasVM(u, id)
    {
      var v :| v in t.vms && v.id == id;
      assert v in u.vms;
    }
    assert forall v :: v in t.vms ==> VMRefs(u, v);
    assert VMRefs(u, vm);
  }

  // ---------------------------------------------------------------------------------------------
  // Deletes and inserts in the other tables

  lemma DeleteVMKeepsInv(s: Setup, t: Tables, id: Id)
    requires Inv(s, t)
    ensures Inv(s, DeleteVM(t, id))
  {
    var u := DeleteVM(t, id);
    DistinctFilter(t.vms, (v: VM) => v.id != id);
    forall x | HasVM(t, x) && x != id
      ensures HasVM(u, x)
    {
      var v :| v in t.vms && v.id == x;
      assert v in u.vms;
    }
    assert forall v :: v in u.vms ==> VMRefs(t, v) && VMRefs(u, v);
  }

  lemma NetworkInsertKeepsInv(s: Setup, t: Tables, n: Network)
    requires Inv(s, t) && InsertNetwork(t, n).Some?
    requires NetworkPlaced(s.vmCidr, n) && !OverlapFound(t.networks, t.vms, n.cidr, "")
    ensures Inv(s, InsertNetwork(t, n).value)
  {
    hide CidrWithin, RoutedRange, NetworkPlaced, VMPlaced;
    var u := InsertNetwork(t, n).value;
    forall m | m in t.networks
      ensures m.id != n.id && !CidrOverlaps(n.cidr, m.cidr)
    {
      assert !NetworkMeets(m, n.cidr, "");
      assert !NetworkClash(n, m);
    }
    forall v | v in t.vms
      ensures VMPlaced(s.vmCidr, u.networks, v.net)
    {
      assert !VMMeets(v, n.cidr, "");
      PlacedWithMoreNetworks(s.vmCidr, t.networks, n, v.net);
    }
    assert u.networks[1..] == t.networks;
    SameRowsKeepRefs(t, u);
  }

  lemma CreateNetworkKeepsInv(s: Setup, t: Tables, nameOk: bool, id: Id, name: string,
                              text: Option<CidrText>, g: Option<u32>)
    requires Inv(s, t)
    ensures Inv(s, CreateNetwork(s, t, nameOk, id, name, text, g).0)
  {
    hide CidrWithin, ValidateSharedNetwork, InsertNetwork, Inv, OverlapFound;
    var (u, r) := CreateNetwork(s, t, nameOk, id, name, text, g);
    if r.Ok? {
      NetworkInsertKeepsInv(s, t, r.value);
    }
  }

  lemma PlacedWithMoreNetworks(vmCidr: IPNet, networks: seq<Network>, n: Network, a: Address)
    requires VMPlaced(vmCidr, networks, a)
    requires RoutedRange(a).Some? ==> !CidrOverlaps(n.cidr, RoutedRange(a).value)
    ensures VMPlaced(vmCidr, [n] + networks, a)
  {
    if a.mode == Shared {
      var m :| m in networks && SharedPlaced(m, a);
      assert m in [n] + networks;
    }
  }

  /** References survive a change that keeps the rows that hold them and the rows they name. */
  lemma SameRowsKeepRefs(t: Tables, u: Tables)
    requires RefPlan(t) && PoliciesKnown(u.policies)
    requires u.vms == t.vms && u.ingress == t.ingress && u.jobs == t.jobs
    requires forall k :: k in u.kernelTests ==> k in u.kernels
    requires forall v :: v in t.vms ==> VMRefs(u, v)
    ensures RefPlan(u)
  {
    assert forall id :: HasVM(t, id) ==> HasVM(u, id);
  }

  lemma {:induction false} NoneTwiceFilter(networks: seq<Network>, keep: Network -> bool)
    requires NoneTwice(networks)
    ensures NoneTwice(Filter(networks, keep))
  {
    if networks != [] {
      NoneTwiceFilter(networks[1..], keep);
      var rest := Filter(networks[1..], keep);
      if keep(networks[0]) {
        assert ([networks[0]] + rest)[1..] == rest;
      } else {
        assert [] + rest == rest;
      }
    }
  }

  lemma DeleteNetworkKeepsInv(s: Setup, t: Tables, id: Id, cleanupOk: bool)
    requires Inv(s, t)
    ensures Inv(s, DeleteNetworkCall(t, id, cleanupOk).0)
  {
    var (u, r) := DeleteNetworkCall(t, id, cleanupOk);
    if u != t {
      NoneTwiceFilter(t.networks, (n: Network) => n.id != id);
      forall v | v in t.vms
        ensures VMPlaced(s.vmCidr, u.networks, v.net)
      {
        assert v.net.networkId != id;
        if v.net.mode == Shared {
          var n :| n in t.networks && SharedPlaced(n, v.net);
          assert n in u.networks;
        }
      }
      SameRowsKeepRefs(t, u);
    }
  }

  lemma IngressInsertKeepsInv(s: Setup, t: Tables, r: IngressRule)
    requires Inv(s, t) && HasVM(t, r.vmId) && r.hostPort !in UsedSSHPorts(t) && InsertIngressRule(t, r).Some?
    ensures Inv(s, InsertIngressRule(t, r).value)
  {
    hide Distinct, VMPlaced, NetworkPlaced;
    var u := InsertIngressRule(t, r).value;
    assert forall id :: HasVM(t, id) ==> HasVM(u, id);
    assert forall v :: v in u.vms ==> VMRefs(t, v) && VMRefs(u, v);
    assert forall v :: v in u.vms ==> v.sshPort in UsedSSHPorts(t);
  }

  lemma IngressDeleteKeepsInv(s: Setup, t: Tables, vmId: Id, id: Id)
    requires Inv(s, t)
    ensures Inv(s, DeleteIngressRule(t, vmId, id))
  {
    var u := DeleteIngressRule(t, vmId, id);
    assert forall x :: HasVM(t, x) ==> HasVM(u, x);
    assert forall v :: v in u.vms ==> VMRefs(t, v) && VMRefs(u, v);
  }

  lemma PolicyInsertKeepsInv(s: Setup, t: Tables, p: EgressPolicy)
    requires Inv(s, t)
    ensures Inv(s, CreateEgressPolicy(t, p).0)
  {
    var (u, r) := CreateEgressPolicy(t, p);
    if r.Ok? {
      forall v | v in t.vms
        ensures VMRefs(u, v)
      {
        assert VMRefs(t, v);
        if v.egressPolicyId != "" {
          var q :| q in t.policies && q.id == v.egressPolicyId && q.mode == v.egressMode;
          assert q in u.policies;
        }
      }
      SameRowsKeepRefs(t, u);
    }
  }

  lemma PolicyDeleteKeepsInv(s: Setup, t: Tables, id: Id)
    requires Inv(s, t)
    ensures Inv(s, OrSame(t, DeleteEgressPolicy(t, id)))
  {
    var r := DeleteEgressPolicy(t, id);
    if r.Some? {
      var u := r.value;
      forall v | v in t.vms
        ensures VMRefs(u, v)
      {
        assert VMRefs(t, v) && v.egressPolicyId != id;
        if v.egressPolicyId != "" {
          var q :| q in t.policies && q.id == v.egressPolicyId && q.mode == v.egressMode;
          assert q in u.policies;
        }
      }
      SameRowsKeepRefs(t, u);
    }
  }

  /** Changes of the key, kernel and image tables that keep what the VM rows name. */
  lemma CatalogueKeepsInv(s: Setup, t: Tables, u: Tables)
    requires Inv(s, t)
    requires u == t.(sshKeys := u.sshKeys, kernels := u.kernels, images := u.images, kernelTests := u.kernelTests)
    requires forall k :: k in u.kernelTests ==> k in u.kernels
    requires forall v :: v in t.vms ==> VMRefs(u, v)
    ensures Inv(s, u)
  {
    SameRowsKeepRefs(t, u);
  }

  lemma JobInsertKeepsInv(s: Setup, t: Tables, j: JobRow)
    requires Inv(s, t) && HasVM(t, j.vmId)
    ensures Inv(s, t.(jobs := [j] + t.jobs))
  {
    hide Distinct, VMPlaced, NetworkPlaced;
    var u := t.(jobs := [j] + t.jobs);
    assert forall x :: HasVM(t, x) ==> HasVM(u, x);
    assert forall v :: v in u.vms ==> VMRefs(t, v) && VMRefs(u, v);
  }

  lemma CatalogueCallKeepsInv(s: Setup, t: Tables, c: Call)
    requires Inv(s, t)
    requires c.CallCreateSSHKey? || c.CallDeleteSSHKey? || c.CallCreateBaseImage? || c.CallDeleteBaseImage?
             || c.CallCreateKernel? || c.CallDeleteKernel? || c.CallStartKernelTest?
    ensures Inv(s, RegistryCall(s, t, c))
  {
    hide AddressPlan, PortPlan;
    var u := RegistryCall(s, t, c);
    forall v | v in t.vms
      ensures VMRefs(u, v)
    {
      assert VMRefs(t, v);
    }
    CatalogueKeepsInv(s, t, u);
  }

  lemma RegistryCallKeepsInv(s: Setup, t: Tables, c: Call)
    requires Inv(s, t)
    ensures Inv(s, RegistryCall(s, t, c))
  {
    hide CreateVM, CreateNetwork, CreateEgressPolicy, DeleteNetworkCall, DeleteEgressPolicy, DeleteSSHKey,
         DeleteBaseImage, DeleteKernel, Inv;
    match c {
      case CallCreateVM(req) => CreateVMKeepsInv(s, t, req);
      case CallCreateNetwork(ok, id, name, text, g) => CreateNetworkKeepsInv(s, t, ok, id, name, text, g);
      case CallDeleteNetwork(id, ok) => DeleteNetworkKeepsInv(s, t, id, ok);
      case CallCreateEgressPolicy(p) => PolicyInsertKeepsInv(s, t, p);
      case CallDeleteEgressPolicy(id) => PolicyDeleteKeepsInv(s, t, id);
      case CallStartExecJob(jobId, id) =>
        if RegistryCall(s, t, c) != t {
          JobInsertKeepsInv(s, t, JobRow(jobId, id));
        }
      case CallCreateSSHKey(_) => CatalogueCallKeepsInv(s, t, c);
      case CallDeleteSSHKey(_) => CatalogueCallKeepsInv(s, t, c);
      case CallCreateBaseImage(_) => CatalogueCallKeepsInv(s, t, c);
      case CallDeleteBaseImage(_) => CatalogueCallKeepsInv(s, t, c);
      case CallCreateKernel(_, _) => CatalogueCallKeepsInv(s, t, c);
      case CallDeleteKernel(_) => CatalogueCallKeepsInv(s, t, c);
      case CallStartKernelTest(_, _) => CatalogueCallKeepsInv(s, t, c);
      case _ =>
    }
  }

  // ---------------------------------------------------------------------------------------------
  // Calls that also touch the firewall

  lemma StateWrite(s: Setup, t: Tables, row: VM, state: VMState)
    requires Inv(s, t) && row in t.vms
    ensures var vm := row.(state := state);
            UpdateVM(t, vm) == Some(Put(t, vm)) && Put(t, vm) == t.(vms := ReplaceVM(t.vms, vm))
            && Inv(s, Put(t, vm)) && vm in Put(t, vm).vms
  {
    assert VMRefs(t, row);
    PutKeepsInv(s, t, row, row.(state := state));
  }

  lemma EnsureTapNameKeepsInv(s: Setup, t: Tables, row: VM)
    requires Inv(s, t) && row in t.vms && EnsureTapName(t, row).Ok?
    ensures Inv(s, EnsureTapName(t, row).value.0)
    ensures EnsureTapName(t, row).value.1 in EnsureTapName(t, row).value.0.vms
  {
    if !ValidIFName(row.tapName) {
      assert VMRefs(t, row);
      UpdateKeepsInv(s, t, row, row.(tapName := TapNameForID(row.id)));
    }
  }

  lemma LaunchKeepsInv(s: Setup, h: Host, vm: VM, env: StartEnv)
    requires Inv(s, h.tables) && vm in h.tables.vms
    ensures Inv(s, Launch(s, h, vm, env).0.tables)
  {
    hide Inv, UpdateVM, ReplaceVM;
    var starting := vm.(state := Starting);
    StateWrite(s, h.tables, vm, Starting);
    var t1 := Put(h.tables, starting);
    StateWrite(s, t1, starting, Error);
    StateWrite(s, t1, starting, Running);
    assert starting.(state := Running) == vm.(state := Running);
  }

  lemma StartChecksKeepInv(s: Setup, h: Host, id: Id, env: StartEnv)
    requires Inv(s, h.tables)
    ensures var (h1, r) := StartChecks(h, id, env);
            Inv(s, h1.tables) && (r.Ok? && r.value.Some? ==> r.value.value in h1.tables.vms)
  {
    hide Inv, EnsureTapName;
    if GetVM(h.tables, id).Some? {
      var row := GetVM(h.tables, id).value;
      if EnsureTapName(h.tables, row).Ok? {
        EnsureTapNameKeepsInv(s, h.tables, row);
      }
    }
  }

  lemma StartVMKeepsInv(s: Setup, h: Host, id: Id, env: StartEnv)
    requires Inv(s, h.tables)
    ensures Inv(s, StartVM(s, h, id, env).0.tables)
  {
    hide Inv, Launch, StartChecks;
    StartChecksKeepInv(s, h, id, env);
    var (h1, r) := StartChecks(h, id, env);
    if r.Ok? && r.value.Some? {
      LaunchKeepsInv(s, h1, r.value.value, env);
    }
  }

  lemma StopVMKeepsInv(s: Setup, h: Host, id: Id, cleanupOk: bool, nft: Nft)
    requires Inv(s, h.tables)
    ensures Inv(s, StopVM(s, h, id, cleanupOk, nft).0.tables)
  {
    hide Inv, UpdateVM, ReplaceVM;
    if GetVM(h.tables, id).Some? {
      var row := GetVM(h.tables, id).value;
      StateWrite(s, h.tables, row, Stopping);
      var t1 := Put(h.tables, row.(state := Stopping));
      StateWrite(s, t1, row.(state := Stopping), Stopped);
      assert row.(state := Stopping).(state := Stopped) == row.(state := Stopped);
    }
  }

  lemma {:induction false} ReconcileKeepsInv(s: Setup, t: Tables, rows: seq<VM>, alive: set<Id>)
    requires Inv(s, t)
    requires Distinct(rows) && forall v :: v in rows ==> v in t.vms
    ensures Inv(s, ReconcileRows(t, rows, alive).0) && ReconcileRows(t, rows, alive).1
    decreases |rows|
  {
    if rows == [] {
    } else {
      if MaybeRunning(rows[0]) && rows[0].id !in alive {
        var stopped := rows[0].(state := Stopped);
        StateWrite(s, t, rows[0], Stopped);
        forall v | v in rows[1..]
          ensures v in Put(t, stopped).vms
        {
          assert !Clash(rows[0], v);
          ReplaceVMRows(t.vms, stopped);
        }
        ReconcileKeepsInv(s, Put(t, stopped), rows[1..], alive);
      } else {
        ReconcileKeepsInv(s, t, rows[1..], alive);
      }
    }
  }

  lemma SetPolicyKeepsInv(s: Setup, h: Host, id: Id, mode: EgressMode, policyId: Id, nft: Nft)
    requires Inv(s, h.tables)
    ensures Inv(s, SetVMEgressPolicy(s, h, id, mode, policyId, nft).0.tables)
  {
    hide AddressPlan, PortPlan, UpdateVM, ReplaceVM;
    if GetVM(h.tables, id).Some? && EgressChoice(h.tables, mode, policyId).Ok? {
      var row := GetVM(h.tables, id).value;
      var vm := row.(egressMode := EgressChoice(h.tables, mode, policyId).value, egressPolicyId := policyId);
      assert VMRefs(h.tables, row);
      assert VMRefs(h.tables, vm);
      PutKeepsInv(s, h.tables, row, vm);
    }
  }

  lemma AddIngressKeepsInv(s: Setup, h: Host, vmId: Id, ruleId: Id, protocol: Option<Protocol>, hostPort: int,
                           guestPort: int, open: set<int>, nft: Nft)
    requires Inv(s, h.tables)
    ensures Inv(s, AddIngressRule(s, h, vmId, ruleId, protocol, hostPort, guestPort, open, nft).0.tables)
  {
    hide Inv;
    if GetVM(h.tables, vmId).Some? && protocol.Some? && hostPort !in UsedSSHPorts(h.tables) {
      var r := IngressRule(ruleId, vmId, protocol.value, hostPort, guestPort);
      assert HasVM(h.tables, vmId);
      if InsertIngressRule(h.tables, r).Some? {
        IngressInsertKeepsInv(s, h.tables, r);
      }
    }
  }

  /** Every call, whatever fails in it, keeps the invariant. */
  lemma ExecKeepsInv(s: Setup, h: Host, c: Call)
    requires Inv(s, h.tables)
    ensures Inv(s, Exec(s, h, c).tables)
  {
    hide Inv, StartVM, StopVM, UpdateVM, AddIngressRule, SetVMEgressPolicy, RegistryCall, ReconcileRows;
    match c {
      case CallStartVM(id, env) => StartVMKeepsInv(s, h, id, env);
      case CallStopVM(id, ok, nft) => StopVMKeepsInv(s, h, id, ok, nft);
      case CallDeleteVM(id, ok, nft) =>
        StopVMKeepsInv(s, h, id, ok, nft);
        DeleteVMKeepsInv(s, StopVM(s, h, id, ok, nft).0.tables, id);
      case CallReconcile(alive, nft) => ReconcileAllKeepsInv(s, h.tables, alive);
      case CallCleanupHostOrphans(nft) =>
      case CallSetVMEgressPolicy(id, mode, policyId, nft) => SetPolicyKeepsInv(s, h, id, mode, policyId, nft);
      case CallAddIngressRule(id, r, proto, hp, gp, open, nft) =>
        AddIngressKeepsInv(s, h, id, r, proto, hp, gp, open, nft);
      case CallDeleteIngressRule(id, ruleId, nft) => IngressDeleteKeepsInv(s, h.tables, id, ruleId);
      case _ => RegistryCallKeepsInv(s, h.tables, c);
    }
  }

  lemma ReconcileAllKeepsInv(s: Setup, t: Tables, alive: set<Id>)
    requires Inv(s, t)
    ensures Inv(s, ReconcileRows(t, t.vms, alive).0) && ReconcileRows(t, t.vms, alive).1
  {
    ReconcileKeepsInv(s, t, t.vms, alive);
  }

  lemma EmptyInv(s: Setup)
    ensures Inv(s, EMPTY_TABLES)
  {
  }

  lemma {:induction false} RunKeepsInv(s: Setup, h: Host, calls: seq<Call>)
    requires Inv(s, h.tables)
    ensures Inv(s, Run(s, h, calls).tables)
    decreases |calls|
  {
    hide Inv, Exec;
    if calls == [] {
    } else {
      ExecKeepsInv(s, h, calls[0]);
      RunKeepsInv(s, Exec(s, h, calls[0]), calls[1..]);
    }
  }

  // ---------------------------------------------------------------------------------------------
  // What the invariant means

  /** The owners of address ranges: shared networks and routed VMs. */
  predicate Owns(t: Tables, o: Owner, c: IPNet) {
    match o
    case NetworkOwner(n) => n in t.networks && n.cidr == c
    case VMOwner(v) => v in t.vms && v.net.mode == Routed && RoutedRange(v.net) == Some(c)
  }

  ghost predicate RangesDisjoint(vmCidr: IPNet, t: Tables) {
    && (forall o, c :: Owns(t, o, c) ==> CidrWithin(vmCidr, c))
    && (forall o, p, c, d :: Owns(t, o, c) && Owns(t, p, d) && o != p ==> !CidrOverlaps(c, d))
  }

  predicate GuestsPlaced(t: Tables) {
    && (forall v, w :: v in t.vms && w in t.vms && v != w ==> v.net.guestIP != w.net.guestIP)
    && (forall v :: v in t.vms ==> v.net.mode == Routed || v.net.mode == Shared)
    && (forall v :: v in t.vms && v.net.mode == Routed ==>
          RoutedRange(v.net).Some? && InRange(RoutedRange(v.net).value, v.net.guestIP))
    && (forall v :: v in t.vms && v.net.mode == Shared ==>
          exists n :: n in t.networks && n.id == v.net.networkId
                      && First(n.cidr) < v.net.guestIP < Last(n.cidr) && v.net.guestIP != n.gateway)
  }

  lemma RoutedBlocksDisjoint(vmCidr: IPNet, a: Address, b: Address)
    requires RoutedPlaced(vmCidr, a) && RoutedPlaced(vmCidr, b) && a.guestIP != b.guestIP
    ensures !CidrOverlaps(RoutedRange(a).value, RoutedRange(b).value)
  {
    var c, d := RoutedRange(a).value, RoutedRange(b).value;
    if CidrOverlaps(c, d) {
      OverlapNests(c, d);
      OverlapNests(d, c);
    }
  }

  lemma PlanDisjoint(vmCidr: IPNet, t: Tables)
    requires AddressPlan(vmCidr, t)
    ensures RangesDisjoint(vmCidr, t)
  {
    hide CidrWithin, CidrOverlaps, RoutedRange;
    forall o, p, c, d | Owns(t, o, c) && Owns(t, p, d) && o != p
      ensures !CidrOverlaps(c, d)
    {
      if o.VMOwner? && p.VMOwner? {
        assert VMPlaced(vmCidr, t.networks, o.vm.net) && VMPlaced(vmCidr, t.networks, p.vm.net);
        GuestsDistinct(t.vms, o.vm, p.vm);
        RoutedBlocksDisjoint(vmCidr, o.vm.net, p.vm.net);
      } else if o.VMOwner? {
        assert VMPlaced(vmCidr, t.networks, o.vm.net);
      } else if p.VMOwner? {
        assert VMPlaced(vmCidr, t.networks, p.vm.net);
        OverlapSymmetric(c, d);
      }
    }
    forall o, c | Owns(t, o, c)
      ensures CidrWithin(vmCidr, c)
    {
      if o.VMOwner? {
        assert VMPlaced(vmCidr, t.networks, o.vm.net);
      }
    }
  }

  lemma GuestsDistinct(vms: seq<VM>, v: VM, w: VM)
    requires Distinct(vms) && v in vms && w in vms && v != w
    ensures v.net.guestIP != w.net.guestIP
  {
    if Clash(v, w) {
      DistinctRows(vms, v, w);
    }
  }

  lemma PlanPlacesGuests(vmCidr: IPNet, t: Tables)
    requires AddressPlan(vmCidr, t)
    ensures GuestsPlaced(t)
  {
    hide CidrWithin, CidrOverlaps, RoutedRange;
    forall v, w | v in t.vms && w in t.vms && v != w
      ensures v.net.guestIP != w.net.guestIP
    {
      GuestsDistinct(t.vms, v, w);
    }
    forall v | v in t.vms
      ensures VMPlaced(vmCidr, t.networks, v.net)
      ensures v.net.mode == Routed ==> RoutedRange(v.net).Some? && InRange(RoutedRange(v.net).value, v.net.guestIP)
    {
      if v.net.mode == Routed {
        RoutedGuestInside(vmCidr, v.net);
      }
    }
  }

  lemma RoutedGuestInside(vmCidr: IPNet, a: Address)
    requires RoutedPlaced(vmCidr, a)
    ensures InRange(RoutedRange(a).value, a.guestIP)
  {
    Pow2Values();
  }

  /** From an empty database, calls taken one at a time keep all shared CIDRs and routed /30 blocks
      pairwise disjoint and inside vm_cidr, all guest addresses distinct, and every shared guest a usable
      address of its network other than the gateway. */
  lemma ReachableAddressPlan(s: Setup, h: Host, calls: seq<Call>)
    requires h.tables == EMPTY_TABLES
    ensures RangesDisjoint(s.vmCidr, Run(s, h, calls).tables) && GuestsPlaced(Run(s, h, calls).tables)
  {
    RunKeepsInv(s, h, calls);
    PlanDisjoint(s.vmCidr, Run(s, h, calls).tables);
    PlanPlacesGuests(s.vmCidr, Run(s, h, calls).tables);
  }

  /** Each shared VM's network, each policy (with the VM's mode), SSH key, kernel and base image that a row names,
      the VM of each ingress rule and exec job, and the kernel of each kernel test job. */
  predicate ReferencesWhole(t: Tables) {
    && (forall v :: v in t.vms && v.net.mode == Shared ==> exists n :: n in t.networks && n.id == v.net.networkId)
    && (forall v :: v in t.vms && v.egressPolicyId != "" ==>
          exists p :: p in t.policies && p.id == v.egressPolicyId && p.mode == v.egressMode)
    && (forall v :: v in t.vms && v.sshKeyId != "" ==> v.sshKeyId in t.sshKeys)
    && (forall v :: v in t.vms ==> v.kernelId in t.kernels && v.baseImageId in t.images)
    && (forall r :: r in t.ingress ==> HasVM(t, r.vmId))
    && (forall j :: j in t.jobs ==> HasVM(t, j.vmId))
    && (forall k :: k in t.kernelTests ==> k in t.kernels)
  }

  predicate HostPortsOnce(t: Tables) {
    && (forall v, w :: v in t.vms && w in t.vms && v != w ==> v.sshPort != w.sshPort)
    && (forall r, q :: r in t.ingress && q in t.ingress && r != q ==> r.hostPort != q.hostPort)
    && (forall v, r :: v in t.vms && r in t.ingress ==> v.sshPort != r.hostPort)
  }

  lemma InvReferences(s: Setup, t: Tables)
    requires Inv(s, t)
    ensures ReferencesWhole(t) && HostPortsOnce(t)
  {
    hide CidrWithin, CidrOverlaps, RoutedRange, NetworksApart, RoutedPlaced, NetworkPlaced;
    forall v | v in t.vms
      ensures VMPlaced(s.vmCidr, t.networks, v.net) && VMRefs(t, v)
    {
    }
    forall v, w | v in t.vms && w in t.vms && v != w
      ensures v.sshPort != w.sshPort
    {
      if Clash(v, w) {
        DistinctRows(t.vms, v, w);
      }
    }
  }

  /** From an empty database, calls taken one at a time keep every reference whole and every host port used once. */
  lemma ReachableReferences(s: Setup, h: Host, calls: seq<Call>)
    requires h.tables == EMPTY_TABLES
    ensures ReferencesWhole(Run(s, h, calls).tables) && HostPortsOnce(Run(s, h, calls).tables)
  {
    hide Inv, Run, ReferencesWhole, HostPortsOnce;
    EmptyInv(s);
    RunKeepsInv(s, h, calls);
    InvReferences(s, Run(s, h, calls).tables);
  }
}
