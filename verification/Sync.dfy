/** The installed nftables table as a derived index of the registry. */
module Sync {
  import opened Model
  import opened Database
  import opened Firewall
  import opened FirewallMeaning
  import opened Lifecycle
  import opened Invariants

  predicate Synced(s: Setup, h: Host) {
    Compile(s.fw, h.tables) == Some(h.nft)
  }

  // ---------------------------------------------------------------------------------------------
  // applyNFT's lookups cannot fail in a reachable registry

  lemma ResolveFinds(s: Setup, t: Tables, v: VM)
    requires Inv(s, t) && v in t.vms
    ensures Resolve(t, v).Some?
  {
    assert VMRefs(t, v) && VMPlaced(s.vmCidr, t.networks, v.net);
  }

  lemma {:induction false} ResolveAllFinds(s: Setup, t: Tables, vms: seq<VM>)
    requires Inv(s, t) && forall v :: v in vms ==> v in t.vms
    ensures ResolveAll(t, vms).Some?
  {
    hide Inv, Resolve;
    if vms == [] {
    } else {
      ResolveFinds(s, t, vms[0]);
      ResolveAllFinds(s, t, vms[1..]);
    }
  }

  /** The network-missing, policy-missing and unknown-mode errors of applyNFT are unreachable. */
  lemma CompileTotal(s: Setup, t: Tables)
    requires Inv(s, t)
    ensures Compile(s.fw, t).Some?
  {
    hide Inv;
    ResolveAllFinds(s, t, t.vms);
  }

  /** From an empty database, no registry that calls taken one at a time can reach makes applyNFT fail before it runs
      nft. */
  lemma ReachableCompiles(s: Setup, h: Host, calls: seq<Call>)
    requires h.tables == EMPTY_TABLES
    ensures Compile(s.fw, Run(s, h, calls).tables).Some?
  {
    hide Inv, Run, Compile;
    EmptyInv(s);
    RunKeepsInv(s, h, calls);
    CompileTotal(s, Run(s, h, calls).tables);
  }

  // ---------------------------------------------------------------------------------------------
  // What the table depends on

  predicate SameView(t: Tables, v: VM, u: Tables, w: VM) {
    IsActive(v) == IsActive(w) && (IsActive(v) ==> Resolve(t, v) == Resolve(u, w))
  }

  lemma {:induction false} ResolveCongruence(t: Tables, vs: seq<VM>, u: Tables, ws: seq<VM>)
    requires |vs| == |ws| && forall i :: 0 <= i < |vs| ==> SameView(t, vs[i], u, ws[i])
    ensures ResolveAll(t, vs) == ResolveAll(u, ws)
  {
    hide Resolve;
    if vs == [] {
    } else {
      assert SameView(t, vs[0], u, ws[0]);
      forall i | 0 <= i < |vs[1..]|
        ensures SameView(t, vs[1..][i], u, ws[1..][i])
      {
        assert SameView(t, vs[i + 1], u, ws[i + 1]);
      }
      ResolveCongruence(t, vs[1..], u, ws[1..]);
    }
  }

  lemma SameCompile(s: Setup, t: Tables, u: Tables)
    requires |t.vms| == |u.vms| && forall i :: 0 <= i < |t.vms| ==> SameView(t, t.vms[i], u, u.vms[i])
    ensures Compile(s.fw, t) == Compile(s.fw, u)
  {
    ResolveCongruence(t, t.vms, u, u.vms);
  }

  /** Dropping inactive rows changes nothing. */
  lemma {:induction false} ResolveFilter(t: Tables, vms: seq<VM>, u: Tables, keep: VM -> bool)
    requires forall v :: v in vms && !keep(v) ==> !IsActive(v)
    requires forall v :: v in vms && keep(v) && IsActive(v) ==> Resolve(t, v) == Resolve(u, v)
    ensures ResolveAll(u, Filter(vms, keep)) == ResolveAll(t, vms)
  {
    hide Resolve;
    if vms == [] {
    } else {
      ResolveFilter(t, vms[1..], u, keep);
      var r := Filter(vms, keep);
      if keep(vms[0]) {
        assert r[1..] == Filter(vms[1..], keep);
        assert vms[0] in vms;
      } else {
        assert r == Filter(vms[1..], keep);
        assert vms[0] in vms;
      }
    }
  }

  /** A state write that keeps the row active, or keeps it inactive, keeps the table. */
  lemma StateWriteSync(s: Setup, t: Tables, row: VM, vm: VM)
    requires Distinct(t.vms) && row in t.vms && vm == row.(state := vm.state, tapName := vm.tapName)
    requires IsActive(vm) == IsActive(row) && (IsActive(row) ==> vm.tapName == row.tapName)
    ensures Compile(s.fw, t.(vms := ReplaceVM(t.vms, vm))) == Compile(s.fw, t)
  {
    var u := t.(vms := ReplaceVM(t.vms, vm));
    forall i | 0 <= i < |t.vms|
      ensures SameView(t, t.vms[i], u, u.vms[i])
    {
      if t.vms[i].id == vm.id {
        DistinctRows(t.vms, row, t.vms[i]);
      }
    }
    SameCompile(s, t, u);
  }

  // ---------------------------------------------------------------------------------------------
  // Counting active rows

  function CountActive(vms: seq<VM>): nat {
    if vms == [] then 0 else (if IsActive(vms[0]) then 1 else 0) + CountActive(vms[1..])
  }

  lemma {:induction false} ResolveCount(t: Tables, vms: seq<VM>)
    requires ResolveAll(t, vms).Some?
    ensures |ResolveAll(t, vms).value| == CountActive(vms)
  {
    hide Resolve;
    if vms == [] {
    } else {
      ResolveCount(t, vms[1..]);
    }
  }

  lemma {:induction false} ReplaceCount(vms: seq<VM>, row: VM, vm: VM)
    requires Distinct(vms) && vm.id == row.id
    ensures CountActive(ReplaceVM(vms, vm)) ==
            CountActive(vms)
            + (if row in vms then (if IsActive(vm) then 1 else 0) - (if IsActive(row) then 1 else 0) else 0)
            || (row !in vms && exists w :: w in vms && w.id == row.id)
  {
    if vms == [] {
    } else {
      var r := ReplaceVM(vms, vm);
      assert r[1..] == ReplaceVM(vms[1..], vm);
      ReplaceCount(vms[1..], row, vm);
      if vms[0] == row {
        assert forall w :: w in vms[1..] ==> !Clash(row, w);
      }
    }
  }

  /** Two registries with different numbers of active VMs have different tables. */
  lemma CountSeparates(s: Setup, t: Tables, u: Tables)
    requires Compile(s.fw, t).Some? && Compile(s.fw, u).Some? && CountActive(t.vms) != CountActive(u.vms)
    ensures Compile(s.fw, t) != Compile(s.fw, u)
  {
    ResolveCount(t, t.vms);
    ResolveCount(u, u.vms);
    InputCount(s.fw, BASE, ResolveAll(t, t.vms).value, {});
    InputCount(s.fw, BASE, ResolveAll(u, u.vms).value, {});
  }

  // ---------------------------------------------------------------------------------------------
  // Calls without applyNFT leave the compiled table alone

  /** Lookups of an existing row do not notice a new row or a permitted delete elsewhere. */
  lemma {:induction false} FindAfterFilter(networks: seq<Network>, id: Id, gone: Id)
    requires id != gone
    ensures FindNetwork(Filter(networks, (n: Network) => n.id != gone), id) == FindNetwork(networks, id)
  {
    if networks == [] {
    } else {
      var keep := (n: Network) => n.id != gone;
      FindAfterFilter(networks[1..], id, gone);
      var r := Filter(networks, keep);
      if networks[0].id != gone {
        assert r[1..] == Filter(networks[1..], keep);
      } else {
        assert r == Filter(networks[1..], keep);
      }
    }
  }

  lemma {:induction false} PolicyAfterFilter(policies: seq<EgressPolicy>, id: Id, gone: Id)
    requires id != gone
    ensures FindPolicy(Filter(policies, (p: EgressPolicy) => p.id != gone), id) == FindPolicy(policies, id)
  {
    if policies == [] {
    } else {
      var keep := (p: EgressPolicy) => p.id != gone;
      PolicyAfterFilter(policies[1..], id, gone);
      var r := Filter(policies, keep);
      if policies[0].id != gone {
        assert r[1..] == Filter(policies[1..], keep);
      } else {
        assert r == Filter(policies[1..], keep);
      }
    }
  }

  /** Filtering twice, and filtering an insertion, row by row. */
  lemma {:induction false} ListAfterFilter(rules: seq<IngressRule>, keep: IngressRule -> bool, vmId: Id)
    requires forall r :: r in rules && r.vmId == vmId ==> keep(r)
    ensures var mine := (r: IngressRule) => r.vmId == vmId; Filter(Filter(rules, keep), mine) == Filter(rules, mine)
  {
    if rules == [] {
    } else {
      ListAfterFilter(rules[1..], keep, vmId);
      var r := Filter(rules, keep);
      if keep(rules[0]) {
        assert r[0] == rules[0] && r[1..] == Filter(rules[1..], keep);
      } else {
        assert r == Filter(rules[1..], keep);
      }
    }
  }

  lemma {:induction false} ListAfterInsert(rules: seq<IngressRule>, x: IngressRule, vmId: Id)
    requires x.vmId != vmId
    ensures var mine := (r: IngressRule) => r.vmId == vmId; Filter(InsertByPort(rules, x), mine) == Filter(rules, mine)
  {
    var mine := (r: IngressRule) => r.vmId == vmId;
    var r := InsertByPort(rules, x);
    if rules == [] || x.hostPort <= rules[0].hostPort {
      assert r[1..] == rules;
    } else {
      ListAfterInsert(rules[1..], x, vmId);
      assert r[1..] == InsertByPort(rules[1..], x);
    }
  }

  lemma CreateVMSync(s: Setup, t: Tables, req: CreateRequest)
    ensures Compile(s.fw, CreateVM(s, t, req).0) == Compile(s.fw, t)
  {
    hide PlanVM, Resolve;
    var (u, r) := CreateVM(s, t, req);
    if r.Ok? {
      PlannedStopped(s, t, req);
      assert u.vms[1..] == t.vms;
      forall v | v in t.vms
        ensures Resolve(t, v) == Resolve(u, v)
      {
        SameLookups(t, u, v);
      }
      ResolveCongruence(t, t.vms, u, t.vms);
    }
  }

  lemma PlannedStopped(s: Setup, t: Tables, req: CreateRequest)
    requires PlanVM(s, t, req).Ok?
    ensures !IsActive(PlanVM(s, t, req).value)
  {
  }

  lemma SameLookups(t: Tables, u: Tables, v: VM)
    requires v.net.mode == Shared ==> GetNetwork(t, v.net.networkId) == GetNetwork(u, v.net.networkId)
    requires v.egressPolicyId != "" ==> GetEgressPolicy(t, v.egressPolicyId) == GetEgressPolicy(u, v.egressPolicyId)
    requires ListIngressRules(t, v.id) == ListIngressRules(u, v.id)
    ensures Resolve(t, v) == Resolve(u, v)
  {
  }

  /** A change outside table vms keeps the table if every row still finds what it found. */
  lemma LookupsSync(s: Setup, t: Tables, u: Tables)
    requires u.vms == t.vms && forall v :: v in t.vms ==> Resolve(t, v) == Resolve(u, v)
    ensures Compile(s.fw, u) == Compile(s.fw, t)
  {
    hide Resolve;
    ResolveCongruence(t, t.vms, u, t.vms);
  }

  lemma NetworkCallsSync(s: Setup, t: Tables, c: Call)
    requires Inv(s, t) && (c.CallCreateNetwork? || c.CallDeleteNetwork?)
    ensures Compile(s.fw, RegistryCall(s, t, c)) == Compile(s.fw, t)
  {
    hide Resolve;
    var u := RegistryCall(s, t, c);
    if u != t {
      forall v | v in t.vms
        ensures Resolve(t, v) == Resolve(u, v)
      {
        if v.net.mode == Shared {
          SharedNetworkExists(s, t, v);
          if c.CallDeleteNetwork? {
            FindAfterFilter(t.networks, v.net.networkId, c.id);
          } else {
            assert u.networks[1..] == t.networks;
          }
        }
        SameLookups(t, u, v);
      }
      LookupsSync(s, t, u);
    }
  }

  lemma SharedNetworkExists(s: Setup, t: Tables, v: VM)
    requires Inv(s, t) && v in t.vms && v.net.mode == Shared
    ensures exists n :: n in t.networks && n.id == v.net.networkId
  {
    assert VMPlaced(s.vmCidr, t.networks, v.net);
  }

  lemma PolicyCallsSync(s: Setup, t: Tables, c: Call)
    requires Inv(s, t) && (c.CallCreateEgressPolicy? || c.CallDeleteEgressPolicy?)
    ensures Compile(s.fw, RegistryCall(s, t, c)) == Compile(s.fw, t)
  {
    hide AddressPlan, PortPlan, Resolve;
    var u := RegistryCall(s, t, c);
    if u != t {
      forall v | v in t.vms
        ensures Resolve(t, v) == Resolve(u, v)
      {
        assert VMRefs(t, v);
        if v.egressPolicyId != "" {
          if c.CallDeleteEgressPolicy? {
            PolicyAfterFilter(t.policies, v.egressPolicyId, c.id);
          } else {
            assert u.policies[1..] == t.policies;
          }
        }
        SameLookups(t, u, v);
      }
      LookupsSync(s, t, u);
    }
  }

  lemma RegistryCallSync(s: Setup, t: Tables, c: Call)
    requires Inv(s, t)
    ensures Compile(s.fw, RegistryCall(s, t, c)) == Compile(s.fw, t)
  {
    if c.CallCreateVM? {
      CreateVMSync(s, t, c.req);
    } else if c.CallCreateNetwork? || c.CallDeleteNetwork? {
      NetworkCallsSync(s, t, c);
    } else if c.CallCreateEgressPolicy? || c.CallDeleteEgressPolicy? {
      PolicyCallsSync(s, t, c);
    } else {
      hide Inv, Resolve, CreateVM, CreateNetwork;
      var u := RegistryCall(s, t, c);
      forall v | v in t.vms
        ensures Resolve(t, v) == Resolve(u, v)
      {
        SameLookups(t, u, v);
      }
      LookupsSync(s, t, u);
    }
  }

  lemma DeleteVMSync(s: Setup, t: Tables, id: Id)
    requires forall v :: v in t.vms && v.id == id ==> !IsActive(v)
    ensures Compile(s.fw, DeleteVM(t, id)) == Compile(s.fw, t)
  {
    hide Resolve;
    var u := DeleteVM(t, id);
    forall v | v in t.vms && v.id != id
      ensures Resolve(t, v) == Resolve(u, v)
    {
      ListAfterFilter(t.ingress, (r: IngressRule) => r.vmId != id, v.id);
      SameLookups(t, u, v);
    }
    ResolveFilter(t, t.vms, u, (v: VM) => v.id != id);
  }

  lemma IngressSync(s: Setup, t: Tables, u: Tables, vm: VM)
    requires Distinct(t.vms) && vm in t.vms && !IsActive(vm)
    requires (exists r: IngressRule :: r.vmId == vm.id && u == t.(ingress := InsertByPort(t.ingress, r)))
             || (exists id :: u == DeleteIngressRule(t, vm.id, id))
    ensures Compile(s.fw, u) == Compile(s.fw, t)
  {
    hide Resolve;
    forall i | 0 <= i < |t.vms|
      ensures SameView(t, t.vms[i], u, u.vms[i])
    {
      var v := t.vms[i];
      if IsActive(v) {
        if v.id == vm.id {
          DistinctRows(t.vms, v, vm);
        }
        if r: IngressRule :| r.vmId == vm.id && u == t.(ingress := InsertByPort(t.ingress, r)) {
          ListAfterInsert(t.ingress, r, v.id);
        } else {
          var id :| u == DeleteIngressRule(t, vm.id, id);
          ListAfterFilter(t.ingress, (r: IngressRule) => !(r.vmId == vm.id && r.id == id), v.id);
        }
        SameLookups(t, u, v);
      }
    }
    SameCompile(s, t, u);
  }

  // ---------------------------------------------------------------------------------------------
  // Calls with applyNFT

  /** One successful applyNFT makes the table agree, whatever was installed before. */
  lemma ApplyRestores(s: Setup, h: Host, nft: Nft)
    requires Inv(s, h.tables)
    ensures ApplyNFT(s, h, nft).1 == nft.nftOk && ApplyNFT(s, h, nft).0.tables == h.tables
    ensures nft.nftOk ==> Synced(s, ApplyNFT(s, h, nft).0)
  {
    hide Inv, Compile;
    CompileTotal(s, h.tables);
  }

  lemma ReplaceTwice(vms: seq<VM>, a: VM, b: VM)
    requires a.id == b.id
    ensures ReplaceVM(ReplaceVM(vms, a), b) == ReplaceVM(vms, b)
  {
  }

  lemma RowWriteCount(t: Tables, row: VM, vm: VM)
    requires Distinct(t.vms) && row in t.vms && vm.id == row.id
    ensures CountActive(ReplaceVM(t.vms, vm)) ==
            CountActive(t.vms) + (if IsActive(vm) then 1 else 0) - (if IsActive(row) then 1 else 0)
  {
    ReplaceCount(t.vms, row, vm);
  }

  /** Ending in `error` keeps the table exactly for a VM that was inactive before. */
  lemma FailedStateSync(s: Setup, t: Tables, vm: VM)
    requires Inv(s, t) && vm in t.vms
    ensures var u := t.(vms := ReplaceVM(t.vms, vm.(state := Error)));
            Inv(s, u) && (Compile(s.fw, u) == Compile(s.fw, t) <==> !IsActive(vm))
  {
    hide Compile, AddressPlan, PortPlan, RefPlan;
    StateWrite(s, t, vm, Error);
    var failed := vm.(state := Error);
    var u := t.(vms := ReplaceVM(t.vms, failed));
    InvDistinct(s, t);
    if IsActive(vm) {
      RowWriteCount(t, vm, failed);
      CompileTotal(s, t);
      CompileTotal(s, u);
      CountSeparates(s, t, u);
    } else {
      StateWriteSync(s, t, vm, failed);
    }
  }

  lemma InvDistinct(s: Setup, t: Tables)
    requires Inv(s, t)
    ensures Distinct(t.vms)
  {
  }

  /** Launching a VM leaves table and registry in step exactly when: if the TAP is set up, Firecracker
      starts; if it is not, the VM was not active. */
  lemma LaunchSync(s: Setup, h: Host, vm: VM, env: StartEnv)
    requires Inv(s, h.tables) && vm in h.tables.vms && env.nft.nftOk
    ensures var h1 := Launch(s, h, vm, env).0;
            if env.tapOk then Synced(s, h1) <==> env.firecrackerOk
            else Synced(s, h) ==> (Synced(s, h1) <==> !IsActive(vm))
  {
    hide Inv, Compile, UpdateVM;
    var t, starting := h.tables, vm.(state := Starting);
    StateWrite(s, t, vm, Starting);
    var t1 := Put(t, starting);
    StateWrite(s, t1, starting, Error);
    StateWrite(s, t1, starting, Running);
    assert starting.(state := Error) == vm.(state := Error) && starting.(state := Running) == vm.(state := Running);
    ReplaceTwice(t.vms, starting, vm.(state := Error));
    ApplyRestores(s, h.(tables := t1), env.nft);
    FailedStateSync(s, t, vm);
    FailedStateSync(s, t1, starting);
    InvDistinct(s, t1);
    StateWriteSync(s, t1, starting, vm.(state := Running));
  }

  lemma StartChecksSync(s: Setup, h: Host, id: Id, env: StartEnv)
    requires Inv(s, h.tables)
    ensures var (h1, r) := StartChecks(h, id, env);
            h1.nft == h.nft && Compile(s.fw, h1.tables) == Compile(s.fw, h.tables)
            && (r.Ok? && r.value.Some? ==>
                  GetVM(h.tables, id).Some? && IsActive(r.value.value) == IsActive(GetVM(h.tables, id).value))
  {
    hide Inv, Compile, ValidIFName;
    if GetVM(h.tables, id).Some? {
      var row := GetVM(h.tables, id).value;
      if EnsureTapName(h.tables, row).Ok? && !ValidIFName(row.tapName) {
        InvDistinct(s, h.tables);
        StateWriteSync(s, h.tables, row, row.(tapName := TapNameForID(row.id)));
      }
    }
  }

  predicate ActiveRow(t: Tables, id: Id) {
    GetVM(t, id).Some? && IsActive(GetVM(t, id).value)
  }

  /** StartVM, exactly: when it gets past its checks and applyNFT does not fail, table and registry stay in
      step if and only if the TAP was set up and Firecracker started, or the TAP was not set up and the VM was
      not active. A TAP failure of an active VM whose process had died leaves its rules installed. */
  lemma StartVMSync(s: Setup, h: Host, id: Id, env: StartEnv)
    requires Inv(s, h.tables) && Synced(s, h) && env.nft.nftOk
    ensures var r := StartChecks(h, id, env).1;
            Synced(s, StartVM(s, h, id, env).0) <==>
            (r.Ok? && r.value.Some? ==> if env.tapOk then env.firecrackerOk else !ActiveRow(h.tables, id))
  {
    hide Inv, Compile, StartChecks, Launch;
    StartChecksKeepInv(s, h, id, env);
    StartChecksSync(s, h, id, env);
    var (h1, r) := StartChecks(h, id, env);
    if r.Ok? && r.value.Some? {
      LaunchSync(s, h1, r.value.value, env);
    }
  }

  lemma StopVMSync(s: Setup, h: Host, id: Id, cleanupOk: bool, nft: Nft)
    requires Inv(s, h.tables) && nft.nftOk && (GetVM(h.tables, id).None? ==> Synced(s, h))
    ensures var (h1, r) := StopVM(s, h, id, cleanupOk, nft);
            Synced(s, h1) && (r.Ok? ==> forall v :: v in h1.tables.vms && v.id == id ==> !IsActive(v))
  {
    hide Inv, Compile, UpdateVM;
    if GetVM(h.tables, id).Some? {
      var row := GetVM(h.tables, id).value;
      var stopping, stopped := row.(state := Stopping), row.(state := Stopped);
      StateWrite(s, h.tables, row, Stopping);
      var t1 := Put(h.tables, stopping);
      StateWrite(s, t1, stopping, Stopped);
      assert stopping.(state := Stopped) == stopped;
      var t2 := Put(t1, stopped);
      ReplaceVMRows(t1.vms, stopped);
      ApplyRestores(s, h.(tables := t2), nft);
    }
  }

  lemma DeleteVMCallSync(s: Setup, h: Host, id: Id, cleanupOk: bool, nft: Nft)
    requires Inv(s, h.tables) && nft.nftOk && (GetVM(h.tables, id).None? ==> Synced(s, h))
    ensures Synced(s, DeleteVMCall(s, h, id, cleanupOk, nft).0)
  {
    hide Inv, Compile, StopVM, DeleteVM;
    StopVMSync(s, h, id, cleanupOk, nft);
    var (h1, r) := StopVM(s, h, id, cleanupOk, nft);
    if r.Ok? {
      DeleteVMSync(s, h1.tables, id);
    }
  }

  lemma ReconcileSync(s: Setup, h: Host, alive: set<Id>, nft: Nft)
    requires Inv(s, h.tables) && nft.nftOk
    requires (forall v :: v in h.tables.vms ==> !MaybeRunning(v)) ==> Synced(s, h)
    ensures Synced(s, Reconcile(s, h, alive, nft))
  {
    hide Inv, Compile;
    ReconcileAllKeepsInv(s, h.tables, alive);
    if exists v :: v in h.tables.vms && MaybeRunning(v) {
      ApplyRestores(s, h.(tables := ReconcileRows(h.tables, h.tables.vms, alive).0), nft);
    } else {
      NothingToReconcile(h.tables, h.tables.vms, alive);
    }
  }

  lemma {:induction false} NothingToReconcile(t: Tables, rows: seq<VM>, alive: set<Id>)
    requires forall v :: v in rows ==> !MaybeRunning(v)
    ensures ReconcileRows(t, rows, alive) == (t, true)
  {
    if rows == [] {
    } else {
      assert rows[0] in rows;
      NothingToReconcile(t, rows[1..], alive);
    }
  }

  /** Writing an inactive row's egress columns keeps the table. */
  lemma InactiveWriteSync(s: Setup, t: Tables, row: VM, vm: VM)
    requires Distinct(t.vms) && row in t.vms && vm.id == row.id && !IsActive(row) && !IsActive(vm)
    ensures Compile(s.fw, t.(vms := ReplaceVM(t.vms, vm))) == Compile(s.fw, t)
  {
    hide Resolve;
    var u := t.(vms := ReplaceVM(t.vms, vm));
    forall i | 0 <= i < |t.vms|
      ensures SameView(t, t.vms[i], u, u.vms[i])
    {
      if t.vms[i].id == vm.id {
        DistinctRows(t.vms, row, t.vms[i]);
      } else {
        SameLookups(t, u, t.vms[i]);
      }
    }
    SameCompile(s, t, u);
  }

  lemma SetPolicySync(s: Setup, h: Host, id: Id, mode: EgressMode, policyId: Id, nft: Nft)
    requires Inv(s, h.tables) && nft.nftOk
    requires !ActiveRow(h.tables, id) || EgressChoice(h.tables, mode, policyId).Err? ==> Synced(s, h)
    ensures Synced(s, SetVMEgressPolicy(s, h, id, mode, policyId, nft).0)
  {
    hide Inv, Compile, UpdateVM, EgressChoice;
    var choice := EgressChoice(h.tables, mode, policyId);
    if GetVM(h.tables, id).Some? && choice.Ok? {
      var row := GetVM(h.tables, id).value;
      var vm := row.(egressMode := choice.value, egressPolicyId := policyId);
      ChosenRefs(s, h.tables, row, mode, policyId);
      PutKeepsInv(s, h.tables, row, vm);
      InvDistinct(s, h.tables);
      if IsActive(row) {
        ApplyRestores(s, h.(tables := Put(h.tables, vm)), nft);
      } else {
        InactiveWriteSync(s, h.tables, row, vm);
      }
    }
  }

  lemma ChosenRefs(s: Setup, t: Tables, row: VM, mode: EgressMode, policyId: Id)
    requires Inv(s, t) && row in t.vms && EgressChoice(t, mode, policyId).Ok?
    ensures VMRefs(t, row.(egressMode := EgressChoice(t, mode, policyId).value, egressPolicyId := policyId))
  {
    hide AddressPlan, PortPlan;
    assert VMRefs(t, row);
  }

  lemma AddIngressSync(s: Setup, h: Host, c: Call)
    requires Inv(s, h.tables) && c.CallAddIngressRule? && (Rebuilds(h, c) || (c.nft.nftOk && Synced(s, h)))
    ensures Synced(s, Exec(s, h, c))
  {
    hide Inv, Compile, UsedSSHPorts;
    if GetVM(h.tables, c.id).Some? && c.protocol.Some? && c.hostPort !in UsedSSHPorts(h.tables) {
      var vm := GetVM(h.tables, c.id).value;
      var r := IngressRule(c.ruleId, c.id, c.protocol.value, c.hostPort, c.guestPort);
      if InsertIngressRule(h.tables, r).Some? {
        var t := InsertIngressRule(h.tables, r).value;
        IngressInsertKeepsInv(s, h.tables, r);
        InvDistinct(s, h.tables);
        if IsActive(vm) {
          ApplyRestores(s, h.(tables := t), c.nft);
        } else {
          IngressSync(s, h.tables, t, vm);
        }
      }
    }
  }

  lemma DeleteIngressSync(s: Setup, h: Host, c: Call)
    requires Inv(s, h.tables) && c.CallDeleteIngressRule? && (Rebuilds(h, c) || (c.nft.nftOk && Synced(s, h)))
    ensures Synced(s, Exec(s, h, c))
  {
    hide Inv, Compile;
    if GetVM(h.tables, c.id).Some? {
      var vm := GetVM(h.tables, c.id).value;
      var t := DeleteIngressRule(h.tables, c.id, c.ruleId);
      IngressDeleteKeepsInv(s, h.tables, c.id, c.ruleId);
      InvDistinct(s, h.tables);
      if IsActive(vm) {
        ApplyRestores(s, h.(tables := t), c.nft);
      } else {
        IngressSync(s, h.tables, t, vm);
      }
    }
  }

  // ---------------------------------------------------------------------------------------------
  // Runs

  /** Nothing in the call breaks the agreement: no applyNFT and no Firecracker start fails, and no TAP
      set-up fails for an active VM. */
  predicate Sound(h: Host, c: Call) {
    match c
    case CallStartVM(id, env) => env.nft.nftOk && if env.tapOk then env.firecrackerOk else !ActiveRow(h.tables, id)
    case CallStopVM(_, _, nft) => nft.nftOk
    case CallDeleteVM(_, _, nft) => nft.nftOk
    case CallReconcile(_, nft) => nft.nftOk
    case CallCleanupHostOrphans(nft) => nft.nftOk
    case CallSetVMEgressPolicy(_, _, _, nft) => nft.nftOk
    case CallAddIngressRule(_, _, _, _, _, _, nft) => nft.nftOk
    case CallDeleteIngressRule(_, _, nft) => nft.nftOk
    case _ => true
  }

  /** AddIngressRule gets past its checks and its insert. */
  predicate RuleAccepted(t: Tables, id: Id, ruleId: Id, protocol: Option<Protocol>, hostPort: int, guestPort: int,
                         open: set<int>)
  {
    protocol.Some? && 1 <= hostPort <= 65535 && 1 <= guestPort <= 65535
    && hostPort !in UsedSSHPorts(t) && hostPort !in open
    && InsertIngressRule(t, IngressRule(ruleId, id, protocol.value, hostPort, guestPort)).Some?
  }

  /** The call runs applyNFT to its end and nothing fails after it. */
  predicate Rebuilds(h: Host, c: Call) {
    match c
    case CallStartVM(id, env) =>
      var r := StartChecks(h, id, env).1;
      r.Ok? && r.value.Some? && env.tapOk && env.nft.nftOk && env.firecrackerOk
    case CallStopVM(id, _, nft) => GetVM(h.tables, id).Some? && nft.nftOk
    case CallDeleteVM(id, _, nft) => GetVM(h.tables, id).Some? && nft.nftOk
    case CallReconcile(_, nft) => nft.nftOk && exists v :: v in h.tables.vms && MaybeRunning(v)
    case CallCleanupHostOrphans(nft) => nft.nftOk
    case CallSetVMEgressPolicy(id, mode, policyId, nft) =>
      nft.nftOk && ActiveRow(h.tables, id) && EgressChoice(h.tables, mode, policyId).Ok?
    case CallAddIngressRule(id, ruleId, protocol, hostPort, guestPort, open, nft) =>
      nft.nftOk && ActiveRow(h.tables, id) && RuleAccepted(h.tables, id, ruleId, protocol, hostPort, guestPort, open)
    case CallDeleteIngressRule(id, _, nft) => nft.nftOk && ActiveRow(h.tables, id)
    case _ => false
  }

  lemma StartVMCallSync(s: Setup, h: Host, id: Id, env: StartEnv)
    requires Inv(s, h.tables)
    requires Rebuilds(h, CallStartVM(id, env)) || (Synced(s, h) && Sound(h, CallStartVM(id, env)))
    ensures Synced(s, StartVM(s, h, id, env).0)
  {
    hide Inv, Compile, StartChecks, Launch;
    if Rebuilds(h, CallStartVM(id, env)) {
      StartChecksKeepInv(s, h, id, env);
      var (h1, r) := StartChecks(h, id, env);
      LaunchSync(s, h1, r.value.value, env);
    } else {
      StartVMSync(s, h, id, env);
    }
  }

  lemma ExecSync(s: Setup, h: Host, c: Call)
    requires Inv(s, h.tables)
    requires Rebuilds(h, c) || (Synced(s, h) && Sound(h, c))
    ensures Synced(s, Exec(s, h, c))
  {
    hide Inv, Compile, StartVM, StopVM, DeleteVMCall, SetVMEgressPolicy, AddIngressRule, DeleteIngressRuleCall,
         Reconcile, RegistryCall, StartChecks, EgressChoice;
    match c {
      case CallStartVM(id, env) => StartVMCallSync(s, h, id, env);
      case CallStopVM(id, ok, nft) => StopVMSync(s, h, id, ok, nft);
      case CallDeleteVM(id, ok, nft) => DeleteVMCallSync(s, h, id, ok, nft);
      case CallReconcile(alive, nft) => ReconcileSync(s, h, alive, nft);
      case CallCleanupHostOrphans(nft) => ApplyRestores(s, h, nft);
      case CallSetVMEgressPolicy(id, mode, policyId, nft) => SetPolicySync(s, h, id, mode, policyId, nft);
      case CallAddIngressRule(_, _, _, _, _, _, _) => AddIngressSync(s, h, c);
      case CallDeleteIngressRule(_, _, _) => DeleteIngressSync(s, h, c);
      case _ => RegistryCallSync(s, h.tables, c);
    }
  }

  /** Whether, after the calls, nothing has failed since the last rebuild; `clean` says it of the start. */
  function Clean(s: Setup, h: Host, calls: seq<Call>, clean: bool): bool
    decreases |calls|
  {
    if calls == [] then clean
    else Clean(s, Exec(s, h, calls[0]), calls[1..], Rebuilds(h, calls[0]) || (clean && Sound(h, calls[0])))
  }

  /** Over every run, whatever table the run found installed, the table equals the compiled registry
      whenever nothing has failed since the last rebuild. */
  lemma {:induction false} RunSync(s: Setup, h: Host, calls: seq<Call>, clean: bool)
    requires Inv(s, h.tables) && (clean ==> Synced(s, h)) && Clean(s, h, calls, clean)
    ensures Synced(s, Run(s, h, calls))
    decreases |calls|
  {
    hide Inv, Compile, Exec, Rebuilds, Sound;
    if calls == [] {
    } else {
      var c := calls[0];
      ExecKeepsInv(s, h, c);
      if Rebuilds(h, c) || (clean && Sound(h, c)) {
        ExecSync(s, h, c);
      }
      RunSync(s, Exec(s, h, c), calls[1..], Rebuilds(h, c) || (clean && Sound(h, c)));
    }
  }
}
