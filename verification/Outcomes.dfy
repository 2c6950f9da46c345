/** What a caller may rely on: the start check raises no false alarm, a restart changes nothing, and a delete undoes
    the create before it. */
module Outcomes {
  import opened Cidr
  import opened Model
  import opened Database
  import opened Allocation
  import opened Firewall
  import opened Lifecycle
  import opened Invariants
  import opened Sync

  // ---------------------------------------------------------------------------------------------
  // The start check

  lemma IdsGiven(s: Setup, t: Tables, v: VM)
    requires Inv(s, t) && v in t.vms
    ensures v.id != "" && (v.net.mode == Shared ==> v.net.networkId != "")
  {
    hide CidrOverlaps, CidrWithin, RoutedRange, RoutedPlaced;
    assert VMRefs(t, v) && VMPlaced(s.vmCidr, t.networks, v.net);
  }

  lemma SharedCheckPasses(s: Setup, t: Tables, v: VM)
    requires Inv(s, t) && v in t.vms && v.net.mode == Shared
    ensures EnsureVMNetworkUsable(t, v) == Ok(())
  {
    hide CidrOverlaps, CidrWithin, RoutedRange, PortPlan, RefPlan, RoutedPlaced, SharedPlaced;
    SharedNetworkExists(s, t, v);
    IdsGiven(s, t, v);
    var n := GetNetwork(t, v.net.networkId).value;
    forall m | m in t.networks
      ensures !NetworkMeets(m, n.cidr, n.id)
    {
      assert m != n ==> !CidrOverlaps(n.cidr, m.cidr);
    }
    forall w | w in t.vms
      ensures !VMMeets(w, n.cidr, n.id)
    {
      if RoutedRange(w.net).Some? {
        RoutedApart(s, t, w, n);
      }
    }
  }

  lemma RoutedApart(s: Setup, t: Tables, w: VM, n: Network)
    requires Inv(s, t) && w in t.vms && n in t.networks && RoutedRange(w.net).Some?
    ensures !CidrOverlaps(n.cidr, RoutedRange(w.net).value) && !CidrOverlaps(RoutedRange(w.net).value, n.cidr)
  {
    hide CidrWithin, PortPlan, RefPlan, NetworksApart, Distinct, NetworkPlaced, RoutedPlaced, SharedPlaced;
    assert VMPlaced(s.vmCidr, t.networks, w.net);
    OverlapSymmetric(n.cidr, RoutedRange(w.net).value);
  }

  lemma RoutedCheckPasses(s: Setup, t: Tables, v: VM)
    requires Inv(s, t) && v in t.vms && v.net.mode == Routed
    ensures EnsureVMNetworkUsable(t, v) == Ok(())
  {
    hide CidrOverlaps, CidrWithin, PortPlan, RefPlan, SharedPlaced, NetworksApart, NetworkPlaced, RoutedRange, Distinct;
    assert VMPlaced(s.vmCidr, t.networks, v.net);
    IdsGiven(s, t, v);
    var c := RoutedRange(v.net).value;
    forall m | m in t.networks
      ensures !NetworkMeets(m, c, v.id)
    {
      RoutedApart(s, t, v, m);
    }
    PlanDisjoint(s.vmCidr, t);
    forall w | w in t.vms
      ensures !VMMeets(w, c, v.id)
    {
      if w.id != v.id && RoutedRange(w.net).Some? {
        RoutedRows(s, t, w);
        assert Owns(t, VMOwner(v), c) && Owns(t, VMOwner(w), RoutedRange(w.net).value);
      }
    }
  }

  lemma RoutedRows(s: Setup, t: Tables, w: VM)
    requires Inv(s, t) && w in t.vms && RoutedRange(w.net).Some?
    ensures w.net.mode == Routed
  {
    hide CidrWithin, CidrOverlaps, PortPlan, RefPlan, NetworksApart, Distinct, NetworkPlaced, RoutedPlaced,
         SharedPlaced;
    assert VMPlaced(s.vmCidr, t.networks, w.net);
  }

  /** The re-check of StartVM raises no false alarm: while calls come one at a time it never refuses a registered VM. */
  lemma ReachableStartCheck(s: Setup, h: Host, calls: seq<Call>, v: VM)
    requires h.tables == EMPTY_TABLES
    requires v in Run(s, h, calls).tables.vms
    ensures EnsureVMNetworkUsable(Run(s, h, calls).tables, v) == Ok(())
  {
    hide Inv, Run, EnsureVMNetworkUsable, VMPlaced;
    EmptyInv(s);
    RunKeepsInv(s, h, calls);
    StartCheckPasses(s, Run(s, h, calls).tables, v);
  }

  lemma StartCheckPasses(s: Setup, t: Tables, v: VM)
    requires Inv(s, t) && v in t.vms
    ensures EnsureVMNetworkUsable(t, v) == Ok(())
  {
    hide EnsureVMNetworkUsable, Distinct, NetworksApart, PortPlan, RefPlan, RoutedPlaced, SharedPlaced;
    assert VMPlaced(s.vmCidr, t.networks, v.net);
    if v.net.mode == Shared {
      SharedCheckPasses(s, t, v);
    } else {
      RoutedCheckPasses(s, t, v);
    }
  }

  // ---------------------------------------------------------------------------------------------
  // Stop, start, restart

  const ALL_WELL := Nft(true, BASE)

  /** A stop in which nothing fails: the row is stopped, no other row changes, and the firewall is current. */
  lemma StopOutcome(s: Setup, h: Host, row: VM)
    requires Inv(s, h.tables) && GetVM(h.tables, row.id) == Some(row)
    ensures var (h1, r) := StopVM(s, h, row.id, true, ALL_WELL);
            r == Ok(()) && h1.tables == h.tables.(vms := ReplaceVM(h.tables.vms, row.(state := Stopped)))
            && Inv(s, h1.tables) && Synced(s, h1)
  {
    hide Inv, Compile, UpdateVM;
    StateWrite(s, h.tables, row, Stopping);
    var stopping := row.(state := Stopping);
    var t1 := Put(h.tables, stopping);
    StateWrite(s, t1, stopping, Stopped);
    assert stopping.(state := Stopped) == row.(state := Stopped);
    ReplaceTwice(h.tables.vms, stopping, row.(state := Stopped));
    ApplyRestores(s, h.(tables := Put(t1, row.(state := Stopped))), ALL_WELL);
  }

  /** A start in which nothing fails: the row runs, no other row changes, and the firewall is current. */
  lemma StartOutcome(s: Setup, h: Host, row: VM)
    requires Inv(s, h.tables) && GetVM(h.tables, row.id) == Some(row)
    requires ValidIFName(row.tapName) && row.state != Running
    ensures var (h1, r) := StartVM(s, h, row.id, StartEnv(false, true, ALL_WELL, true));
            r == Ok(()) && h1.tables == h.tables.(vms := ReplaceVM(h.tables.vms, row.(state := Running)))
            && Synced(s, h1)
  {
    hide Inv, Compile, UpdateVM, EnsureVMNetworkUsable, ValidIFName;
    StartCheckPasses(s, h.tables, row);
    var env := StartEnv(false, true, ALL_WELL, true);
    assert StartChecks(h, row.id, env) == (h, Ok(Some(row)));
    StateWrite(s, h.tables, row, Starting);
    var starting := row.(state := Starting);
    var t1 := Put(h.tables, starting);
    StateWrite(s, t1, starting, Running);
    assert starting.(state := Running) == row.(state := Running);
    ReplaceTwice(h.tables.vms, starting, row.(state := Running));
    ApplyRestores(s, h.(tables := t1), ALL_WELL);
    LaunchSync(s, h, row, env);
  }

  lemma ReplaceSame(vms: seq<VM>, row: VM)
    requires Distinct(vms) && row in vms
    ensures ReplaceVM(vms, row) == vms
  {
    forall i | 0 <= i < |vms|
      ensures ReplaceVM(vms, row)[i] == vms[i]
    {
      if vms[i].id == row.id {
        DistinctRows(vms, vms[i], row);
      }
    }
  }

  lemma {:induction false} FindReplaced(vms: seq<VM>, vm: VM)
    requires FindVM(vms, vm.id).Some?
    ensures FindVM(ReplaceVM(vms, vm), vm.id) == Some(vm)
  {
    if vms[0].id != vm.id {
      assert ReplaceVM(vms, vm)[1..] == ReplaceVM(vms[1..], vm);
      FindReplaced(vms[1..], vm);
    }
  }

  /** Stopping and starting a running VM, with nothing failing, leaves registry and firewall as they were. */
  lemma RestartRestores(s: Setup, h: Host, row: VM)
    requires Inv(s, h.tables) && Synced(s, h)
    requires GetVM(h.tables, row.id) == Some(row) && ValidIFName(row.tapName) && row.state == Running
    ensures var (h1, r) := StopVM(s, h, row.id, true, ALL_WELL);
            r == Ok(()) && StartVM(s, h1, row.id, StartEnv(false, true, ALL_WELL, true)) == (h, Ok(()))
  {
    hide Inv, Compile, StopVM, StartVM, ValidIFName;
    var stopped := row.(state := Stopped);
    StopOutcome(s, h, row);
    var h1 := StopVM(s, h, row.id, true, ALL_WELL).0;
    FindReplaced(h.tables.vms, stopped);
    StartOutcome(s, h1, stopped);
    assert stopped.(state := Running) == row;
    ReplaceTwice(h.tables.vms, stopped, row);
    InvDistinct(s, h.tables);
    ReplaceSame(h.tables.vms, row);
  }

  // ---------------------------------------------------------------------------------------------
  // A TAP failure

  const CATALOGUE := EMPTY_TABLES.(kernels := map["k" := "vmlinux"], images := {"i"})

  const FIRST_VM := CreateRequest(true, "v", "vm", 0, Routed, "", AllowAll, "", "", true, Ok("k"), Ok("i"), {}, true)

  lemma FirstVMCreated(s: Setup)
    requires 1 <= s.vmCidr.ones <= 30 && s.portStart <= s.portEnd
    ensures var r := CreateVM(s, CATALOGUE, FIRST_VM).1; r.Ok? && ValidIFName(r.value.tapName)
  {
    hide AllocateP2P, ValidIFName;
    FirstLease(s.vmCidr);
    var t := CATALOGUE;
    assert UsedGuestIPs(t) == {} && NetworkCidrs(t) == [];
    assert UsedSSHPorts(t) + UsedIngressHostPorts(t) == {};
    assert LowestPort(s.portStart, s.portEnd, {}, {}) == Some(s.portStart);
    FirstTapName();
  }

  lemma FirstTapName()
    ensures TapNameForID("v") == "tap-v" && ValidIFName("tap-v")
  {
  }

  lemma RunCons(s: Setup, h: Host, c: Call, rest: seq<Call>)
    ensures Run(s, h, [c] + rest) == Run(s, Exec(s, h, c), rest)
  {
    hide Exec;
    assert ([c] + rest)[1..] == rest;
  }

  lemma RunNone(s: Setup, h: Host)
    ensures Run(s, h, []) == h
  {
  }

  /** From an empty database, for every vm_cidr: a VM runs, its process dies, and a start whose TAP cannot be set up
      leaves its rules installed. */
  lemma TapFailureExample(s: Setup, h0: Host) returns (calls: seq<Call>, id: Id, env: StartEnv)
    requires h0.tables == EMPTY_TABLES && 1 <= s.vmCidr.ones <= 30 && s.portStart <= s.portEnd
    ensures var h := Run(s, h0, calls);
            Synced(s, h) && GetVM(h.tables, id).Some? && GetVM(h.tables, id).value.state == Running
            && !env.processRunning && env.nft.nftOk && !env.tapOk && !Synced(s, StartVM(s, h, id, env).0)
  {
    hide Inv, Compile, Run, StartVM, CreateVM, ValidIFName;
    id, env := "v", StartEnv(false, false, ALL_WELL, true);
    var start := CallStartVM(id, StartEnv(false, true, ALL_WELL, true));
    var made := CallCreateVM(FIRST_VM);
    calls := [CallCreateKernel("k", "vmlinux")] + ([CallCreateBaseImage("i")] + ([made] + ([start] + [])));
    CatalogueRun(s, h0, [made] + ([start] + []));
    var h2 := h0.(tables := CATALOGUE);
    var h3 := h2.(tables := CreateVM(s, CATALOGUE, FIRST_VM).0);
    RunCons(s, h2, made, [start] + []);
    assert Exec(s, h2, made) == h3;
    RunCons(s, h3, start, []);
    RunNone(s, Exec(s, h3, start));
    FirstVMCreated(s);
    CreatedRow(s, CATALOGUE, FIRST_VM);
    CatalogueInv(s);
    CreateVMKeepsInv(s, CATALOGUE, FIRST_VM);
    FirstVMRuns(s, h3, CreateVM(s, CATALOGUE, FIRST_VM).1.value, env);
  }

  lemma CatalogueRun(s: Setup, h0: Host, rest: seq<Call>)
    requires h0.tables == EMPTY_TABLES
    ensures Run(s, h0, [CallCreateKernel("k", "vmlinux")] + ([CallCreateBaseImage("i")] + rest)) ==
            Run(s, h0.(tables := CATALOGUE), rest)
  {
    hide Run;
    var h1 := h0.(tables := EMPTY_TABLES.(kernels := map["k" := "vmlinux"]));
    RunCons(s, h0, CallCreateKernel("k", "vmlinux"), [CallCreateBaseImage("i")] + rest);
    assert EMPTY_TABLES.kernels["k" := "vmlinux"] == map["k" := "vmlinux"];
    assert Exec(s, h0, CallCreateKernel("k", "vmlinux")) == h1;
    RunCons(s, h1, CallCreateBaseImage("i"), rest);
    assert h1.tables.images + {"i"} == {"i"};
    assert Exec(s, h1, CallCreateBaseImage("i")) == h0.(tables := CATALOGUE);
  }

  lemma CatalogueInv(s: Setup)
    ensures Inv(s, CATALOGUE)
  {
  }

  lemma FirstVMRuns(s: Setup, h: Host, row: VM, env: StartEnv)
    requires Inv(s, h.tables) && GetVM(h.tables, row.id) == Some(row)
    requires ValidIFName(row.tapName) && row.state == Stopped
    requires env == StartEnv(false, false, ALL_WELL, true)
    ensures var h1 := StartVM(s, h, row.id, StartEnv(false, true, ALL_WELL, true)).0;
            Synced(s, h1) && GetVM(h1.tables, row.id) == Some(row.(state := Running))
            && !Synced(s, StartVM(s, h1, row.id, env).0)
  {
    hide Inv, Compile, StartVM, EnsureVMNetworkUsable, ValidIFName, ReplaceVM;
    StartOutcome(s, h, row);
    StartVMKeepsInv(s, h, row.id, StartEnv(false, true, ALL_WELL, true));
    var h1 := StartVM(s, h, row.id, StartEnv(false, true, ALL_WELL, true)).0;
    var running := row.(state := Running);
    FindReplaced(h.tables.vms, running);
    StartCheckPasses(s, h1.tables, running);
    assert StartChecks(h1, row.id, env).1 == Ok(Some(running));
    StartVMSync(s, h1, row.id, env);
  }

  // ---------------------------------------------------------------------------------------------
  // Create and delete

  lemma {:induction false} FilterKeepsAll<T(!new)>(xs: seq<T>, keep: T -> bool)
    requires forall x :: x in xs ==> keep(x)
    ensures Filter(xs, keep) == xs
  {
    if xs != [] {
      assert keep(xs[0]);
      FilterKeepsAll(xs[1..], keep);
      assert [xs[0]] + xs[1..] == xs;
    }
  }

  lemma FilterDropsHead<T(!new)>(x: T, xs: seq<T>, keep: T -> bool)
    requires !keep(x) && forall y :: y in xs ==> keep(y)
    ensures Filter([x] + xs, keep) == xs
  {
    assert ([x] + xs)[1..] == xs;
    FilterKeepsAll(xs, keep);
    assert [] + xs == xs;
  }

  /** Deleting a row just inserted restores the tables: no rule and no job can name a new VM. */
  lemma InsertDeleteVM(s: Setup, t: Tables, vm: VM)
    requires Inv(s, t) && InsertVM(t, vm).Some?
    ensures DeleteVM(InsertVM(t, vm).value, vm.id) == t
  {
    hide AddressPlan, PortPlan, VMRefs, PoliciesKnown, Filter;
    forall w | w in t.vms
      ensures w.id != vm.id
    {
      assert !Clash(vm, w);
    }
    FilterDropsHead(vm, t.vms, (v: VM) => v.id != vm.id);
    FilterKeepsAll(t.ingress, (r: IngressRule) => r.vmId != vm.id);
    FilterKeepsAll(t.jobs, (j: JobRow) => j.vmId != vm.id);
  }

  /** CreateVM changes nothing when it fails; DeleteVM then undoes a success, in the registry and in the firewall. */
  lemma DeleteUndoesCreate(s: Setup, h: Host, req: CreateRequest)
    requires Inv(s, h.tables) && Synced(s, h)
    ensures var (u, r) := CreateVM(s, h.tables, req);
            if r.Err? then u == h.tables else DeleteVMCall(s, h.(tables := u), req.id, true, ALL_WELL) == (h, Ok(()))
  {
    hide Inv, Compile, PlanVM, InsertVM, DeleteVM, UpdateVM;
    var (u, r) := CreateVM(s, h.tables, req);
    if r.Ok? {
      var vm := r.value;
      CreatedRow(s, h.tables, req);
      CreateVMKeepsInv(s, h.tables, req);
      CreateVMSync(s, h.tables, req);
      InsertDeleteVM(s, h.tables, vm);
      StopOutcome(s, h.(tables := u), vm);
      InvDistinct(s, u);
      ReplaceSame(u.vms, vm);
      assert vm.(state := Stopped) == vm;
    }
  }

  lemma CreatedRow(s: Setup, t: Tables, req: CreateRequest)
    requires CreateVM(s, t, req).1.Ok?
    ensures var (u, r) := CreateVM(s, t, req);
            r.value.id == req.id && r.value.state == Stopped && r.value in u.vms && GetVM(u, req.id) == Some(r.value)
            && InsertVM(t, r.value) == Some(u)
  {
    hide AllocateNetwork, AllocatePort, EgressChoice;
  }

  /** DeleteNetwork undoes CreateNetwork, unless some VM row already named the new id. */
  lemma DeleteUndoesCreateNetwork(s: Setup, t: Tables, nameOk: bool, id: Id, name: string,
                                  text: Option<CidrText>, g: Option<u32>)
    ensures var (u, r) := CreateNetwork(s, t, nameOk, id, name, text, g);
            if r.Err? then u == t
            else DeleteNetworkCall(u, id, true) ==
                 if exists v :: v in t.vms && v.net.networkId == id then (u, Err(Internal)) else (t, Ok(()))
  {
    hide ValidateSharedNetwork, Filter;
    var (u, r) := CreateNetwork(s, t, nameOk, id, name, text, g);
    if r.Ok? {
      var n := r.value;
      forall m | m in t.networks
        ensures m.id != id
      {
        assert !NetworkClash(n, m);
      }
      FilterDropsHead(n, t.networks, (m: Network) => m.id != id);
    }
  }

  lemma {:induction false} FilterUndoesInsert(rules: seq<IngressRule>, r: IngressRule, keep: IngressRule -> bool)
    requires !keep(r) && forall x :: x in rules ==> keep(x)
    ensures Filter(InsertByPort(rules, r), keep) == rules
  {
    if rules == [] || r.hostPort <= rules[0].hostPort {
      FilterDropsHead(r, rules, keep);
    } else {
      FilterUndoesInsert(rules[1..], r, keep);
      assert InsertByPort(rules, r)[1..] == InsertByPort(rules[1..], r);
      assert keep(rules[0]);
      assert [rules[0]] + rules[1..] == rules;
    }
  }

  /** DeleteIngressRule undoes AddIngressRule, in the registry and in the firewall. */
  lemma DeleteUndoesAddIngress(s: Setup, h: Host, vmId: Id, ruleId: Id, protocol: Option<Protocol>, hostPort: int,
                               guestPort: int, open: set<int>)
    requires Inv(s, h.tables) && Synced(s, h)
    ensures var (h1, r) := AddIngressRule(s, h, vmId, ruleId, protocol, hostPort, guestPort, open, ALL_WELL);
            if r.Err? then h1 == h else DeleteIngressRuleCall(s, h1, vmId, ruleId, ALL_WELL) == (h, Ok(()))
  {
    hide Inv, Compile, Filter, UsedSSHPorts, InsertByPort;
    var (h1, r) := AddIngressRule(s, h, vmId, ruleId, protocol, hostPort, guestPort, open, ALL_WELL);
    if GetVM(h.tables, vmId).Some? && protocol.Some? {
      var vm := GetVM(h.tables, vmId).value;
      var rule := IngressRule(ruleId, vmId, protocol.value, hostPort, guestPort);
      if hostPort !in UsedSSHPorts(h.tables) && InsertIngressRule(h.tables, rule).Some? {
        var t := InsertIngressRule(h.tables, rule).value;
        IngressInsertKeepsInv(s, h.tables, rule);
        ApplyRestores(s, h.(tables := t), ALL_WELL);
        FilterUndoesInsert(h.tables.ingress, rule, (x: IngressRule) => !(x.vmId == vmId && x.id == ruleId));
        assert DeleteIngressRule(t, vmId, ruleId) == h.tables;
        ApplyRestores(s, h1.(tables := h.tables), ALL_WELL);
        if r.Ok? && !IsActive(vm) {
          assert h1 == h.(tables := t);
        }
      }
    }
  }
}
