/** The Service object of internal/lifecycle/service.go: its calls step by step over the database object and
    the installed nftables table, each proved against the function of module Lifecycle. */
module Service {
  import opened Cidr
  import opened Model
  import opened Firewall
  import opened Allocation
  import D = Database
  import L = Lifecycle
  import S = Store

  class Service {
    const setup: L.Setup
    const store: S.Store
    var nft: Table

    constructor (setup: L.Setup, store: S.Store, nft: Table)
      ensures this.setup == setup && this.store == store && this.nft == nft
    {
      this.setup := setup;
      this.store := store;
      this.nft := nft;
    }

    function State(): L.Host
      reads this, store
    {
      L.Host(store.tables, nft)
    }

    // -------------------------------------------------------------------------------------------
    // applyNFT

    method PortLoop(g: Guest, protocol: Protocol, ports: seq<int>) returns (rules: seq<Rule>)
      ensures rules == PortRules(setup.fw, g, protocol, ports)
    {
      rules := [];
      for i := 0 to |ports|
        invariant rules == PortRules(setup.fw, g, protocol, ports)[..i]
      {
        rules := rules + [ToLan(setup.fw, g).(port := PortIs(protocol, ports[i]))];
      }
    }

    /** egressNFTRules: None for a missing policy or an unsupported mode. */
    method EgressNFTRules(vm: VM, g: Guest) returns (r: Option<seq<Rule>>)
      requires g.guestIP == vm.net.guestIP
      requires D.GetEgressPolicy(store.tables, vm.egressPolicyId).Some? && vm.egressPolicyId != "" ==>
                 var p := D.GetEgressPolicy(store.tables, vm.egressPolicyId).value;
                 g.policy == Policy(p.mode, p.tcpPorts, p.udpPorts, p.cidrs)
      requires vm.egressPolicyId == "" ==> g.policy == Policy(vm.egressMode, [], [], [])
      ensures r.None? <==> (vm.egressPolicyId != "" && D.GetEgressPolicy(store.tables, vm.egressPolicyId).None?)
                           || g.policy.mode == OtherEgress
      ensures r.Some? ==> r.value == EgressRules(setup.fw, g)
    {
      var mode, tcpPorts, udpPorts, cidrs := vm.egressMode, [], [], [];
      if vm.egressPolicyId != "" {
        var policy := D.GetEgressPolicy(store.tables, vm.egressPolicyId);
        if policy.None? {
          return None;
        }
        var p := policy.value;
        mode, tcpPorts, udpPorts, cidrs := p.mode, p.tcpPorts, p.udpPorts, p.cidrs;
      }
      var rules := [];
      match mode {
        case OtherEgress => return None;
        case DenyAll => rules := rules + [ToLan(setup.fw, g).(verdict := Drop)];
        case Restricted =>
          var tcp := PortLoop(g, Tcp, tcpPorts);
          var udp := PortLoop(g, Udp, udpPorts);
          rules := tcp + udp;
          for i := 0 to |cidrs|
            invariant rules == tcp + udp + CidrRules(setup.fw, g, cidrs)[..i]
          {
            rules := rules + [ToLan(setup.fw, g).(dst := DstIn(cidrs[i]))];
          }
          rules := rules + [ToLan(setup.fw, g).(verdict := Drop)];
        case _ => rules := rules + [ToLan(setup.fw, g)];
      }
      return Some(rules);
    }

    /** The rules that follow the anti-spoofing rule of one VM, by chain. */
    method GuestRules(g: Guest, egress: seq<Rule>) returns (dnat: seq<NatRule>, forward: seq<Rule>)
      requires egress == EgressRules(setup.fw, g)
      ensures dnat == NatBlock(setup.fw, g)
      ensures forall seen :: ForwardBlock(setup.fw, g, seen) == GuardRules(g, seen) + forward
    {
      dnat := [NatRule(setup.fw.lan, Tcp, g.sshPort, g.guestIP, 22)];
      forward := [FromLan(setup.fw, g, Tcp, 22)];
      var protectedCidrs := Protected(setup.fw);
      for i := 0 to |protectedCidrs|
        invariant forward == [FromLan(setup.fw, g, Tcp, 22)] + ProtectedRules(g, protectedCidrs)[..i]
      {
        forward := forward + [ANY.(src := SrcIs(g.guestIP), dst := DstIn(protectedCidrs[i]), verdict := Drop)];
      }
      ghost var before := forward;
      for i := 0 to |g.ingress|
        invariant dnat == NatBlock(setup.fw, g)[..i + 1]
        invariant forward == before + IngressRules(setup.fw, g)[..i]
      {
        var r := g.ingress[i];
        dnat := dnat + [NatRule(setup.fw.lan, r.protocol, r.hostPort, g.guestIP, r.guestPort)];
        forward := forward + [FromLan(setup.fw, g, r.protocol, r.guestPort)];
      }
      forward := forward + egress;
      assert forward == [FromLan(setup.fw, g, Tcp, 22)]
                        + (ProtectedRules(g, protectedCidrs) + (IngressRules(setup.fw, g) + egress));
    }

    /** applyNFT. `env.wreck` is what a run that fails leaves installed. */
    method ApplyNFT(env: L.Nft) returns (ok: bool)
      modifies this`nft
      ensures (State(), ok) == L.ApplyNFT(setup, old(State()), env)
    {
      hide Resolve, ForwardBlock, GuardRules, NatBlock, EgressRules, InputRule, GuestRow, Extend, ResolveAll;
      var t := store.tables;
      if !env.nftOk {
        nft := env.wreck;
        return false;
      }
      nft := BASE;
      var sharedNetworks: map<Id, Network> := map[];
      assert t.vms[0..] == t.vms && sharedNetworks.Keys == {};
      for i := 0 to |t.vms|
        invariant store.tables == t
        invariant forall id :: id in sharedNetworks ==> D.GetNetwork(t, id) == Some(sharedNetworks[id])
        invariant ResolveAll(t, t.vms).Some? <==> ResolveAll(t, t.vms[i..]).Some?
        invariant ResolveAll(t, t.vms).Some? ==>
                    Extend(BASE, setup.fw, ResolveAll(t, t.vms).value, {}) ==
                    Extend(nft, setup.fw, ResolveAll(t, t.vms[i..]).value, sharedNetworks.Keys)
      {
        var vm := t.vms[i];
        assert t.vms[i..][1..] == t.vms[i + 1..];
        SkipInactive(t, t.vms[i..]);
        if IsActive(vm) {
          var bridge: Option<Network> := None;
          if vm.net.mode == Shared {
            bridge := if vm.net.networkId in sharedNetworks then Some(sharedNetworks[vm.net.networkId])
                      else D.GetNetwork(t, vm.net.networkId);
          }
          var g := GuestRow(vm, bridge);
          ResolveRow(vm, bridge);
          var egress := EgressNFTRules(vm, g);
          if vm.net.hostIP.None? || (vm.net.mode == Shared && bridge.None?) || egress.None? {
            nft := env.wreck;
            return false;
          }
          var dnat, forward := GuestRules(g, egress.value);
          ghost var before := nft;
          nft := Table(nft.input + [InputRule(setup.fw, g)], nft.prerouting + dnat,
                       nft.postrouting + [Masquerade(g.guestIP, setup.fw.lan)],
                       nft.forward + (GuardRules(g, sharedNetworks.Keys) + forward));
          assert nft == ExtendOne(before, setup.fw, g, sharedNetworks.Keys);
          ghost var seen := sharedNetworks.Keys;
          if bridge.Some? {
            sharedNetworks := sharedNetworks[vm.net.networkId := bridge.value];
          }
          assert sharedNetworks.Keys == Seen(g, seen);
          StepExtend(t, t.vms[i..], before, g, seen);
        }
      }
      assert t.vms[|t.vms|..] == [];
      NoMoreGuests(t, nft, sharedNetworks.Keys);
      assert Compile(setup.fw, t) == Some(nft);
      ok := true;
    }

    lemma SkipInactive(t: Tables, rest: seq<VM>)
      requires rest != []
      ensures !IsActive(rest[0]) ==> ResolveAll(t, rest) == ResolveAll(t, rest[1..])
      ensures IsActive(rest[0]) && Resolve(t, rest[0]).None? ==> ResolveAll(t, rest).None?
    {
    }

    lemma NoMoreGuests(t: Tables, tbl: Table, seen: set<Id>)
      ensures ResolveAll(t, []) == Some([]) && Extend(tbl, setup.fw, [], seen) == tbl
    {
    }

    lemma StepExtend(t: Tables, rest: seq<VM>, tbl: Table, g: Guest, seen: set<Id>)
      requires rest != [] && IsActive(rest[0]) && Resolve(t, rest[0]) == Some(g)
      ensures ResolveAll(t, rest).Some? <==> ResolveAll(t, rest[1..]).Some?
      ensures ResolveAll(t, rest).Some? ==>
                Extend(tbl, setup.fw, ResolveAll(t, rest).value, seen) ==
                Extend(ExtendOne(tbl, setup.fw, g, seen), setup.fw, ResolveAll(t, rest[1..]).value, Seen(g, seen))
    {
      if ResolveAll(t, rest).Some? {
        assert ResolveAll(t, rest).value[1..] == ResolveAll(t, rest[1..]).value;
      }
    }

    lemma ResolveRow(vm: VM, bridge: Option<Network>)
      requires bridge == if vm.net.mode == Shared then D.GetNetwork(store.tables, vm.net.networkId) else None
      ensures var g, p := GuestRow(vm, bridge), D.GetEgressPolicy(store.tables, vm.egressPolicyId);
              && (Resolve(store.tables, vm) ==
                  if vm.net.hostIP.None? || (vm.net.mode == Shared && bridge.None?)
                     || (vm.egressPolicyId != "" && p.None?) || g.policy.mode == OtherEgress then None
                  else Some(g))
              && g.guestIP == vm.net.guestIP && g.bridge == bridge
              && (vm.egressPolicyId != "" && p.Some? ==>
                    g.policy == Policy(p.value.mode, p.value.tcpPorts, p.value.udpPorts, p.value.cidrs))
              && (vm.egressPolicyId == "" ==> g.policy == Policy(vm.egressMode, [], [], []))
    {
    }

    /** What the loop reads for one VM besides its network. */
    function GuestRow(vm: VM, bridge: Option<Network>): Guest
      reads store
    {
      var p := D.GetEgressPolicy(store.tables, vm.egressPolicyId);
      Guest(vm.tapName, if vm.net.hostIP.Some? then vm.net.hostIP.value else 0, vm.net.guestIP, vm.sshPort, bridge,
            D.ListIngressRules(store.tables, vm.id),
            if vm.egressPolicyId != "" && p.Some?
            then Policy(p.value.mode, p.value.tcpPorts, p.value.udpPorts, p.value.cidrs)
            else Policy(vm.egressMode, [], [], []))
    }

    // -------------------------------------------------------------------------------------------
    // Lifecycle calls

    method CreateVM(req: L.CreateRequest) returns (r: Result<VM>)
      modifies store
      ensures (store.tables, r) == L.CreateVM(setup, old(store.tables), req)
    {
      var t := store.tables;
      if !req.fieldsOk { return Err(Invalid); }
      var mode := req.mode;
      if mode == UnsetNetwork { mode := setup.defaultMode; }
      if mode != Routed && mode != Shared { return Err(Invalid); }
      var egress := L.EgressChoice(t, req.egressMode, req.egressPolicyId);
      if egress.Err? { return Err(egress.code); }
      if exists v :: v in t.vms && v.name == req.name { return Err(Conflict); }
      if req.kernel.Err? { return Err(req.kernel.code); }
      if req.kernel.value !in t.kernels { return Err(NotFound); }
      if req.image.Err? { return Err(req.image.code); }
      if req.image.value !in t.images { return Err(NotFound); }
      if req.sshKeyId != "" {
        if req.sshKeyId !in t.sshKeys { return Err(NotFound); }
      } else if !req.extraKeys {
        return Err(Unprocessable);
      }
      var port := AllocatePortLoop(setup.portStart, setup.portEnd, t, req.openPorts, req.sshPort);
      if port.Err? { return Err(port.code); }
      var lease := AllocateNetwork(mode, req.networkId);
      if lease.Err? { return Err(lease.code); }
      if !req.rootfsOk { return Err(Internal); }
      var vm := VM(req.id, req.name, Stopped, port.value, L.TapNameForID(req.id),
                   Address(mode, Some(lease.value.host), lease.value.guest, lease.value.prefix, req.networkId),
                   req.kernel.value, t.kernels[req.kernel.value], req.image.value, req.sshKeyId, egress.value,
                   req.egressPolicyId);
      var ok := store.CreateVM(vm);
      r := if ok then Ok(vm) else Err(Internal);
    }

    method AllocateNetwork(mode: NetworkMode, networkId: Id) returns (r: Result<Lease>)
      ensures r == L.AllocateNetwork(setup, store.tables, mode, networkId)
    {
      var t := store.tables;
      match mode {
        case Routed => r := AllocateP2PLoop(setup.vmCidr, D.UsedGuestIPs(t), L.NetworkCidrs(t));
        case Shared =>
          if networkId == "" { return Err(Unprocessable); }
          var n := D.GetNetwork(t, networkId);
          if n.None? { return Err(NotFound); }
          var conflict := FindCIDROverlap(t, n.value.cidr, n.value.id);
          if conflict.Some? { return Err(Conflict); }
          r := AllocateSharedLoop(n.value, D.UsedGuestIPs(t));
        case _ => r := Err(Internal);
      }
    }

    method FailVM(vm: VM)
      modifies store
      ensures State() == L.FailVM(old(State()), vm)
    {
      var _ := store.UpdateVM(vm.(state := Error));
    }

    method EnsureVMNetworkUsable(vm: VM) returns (r: Result<()>)
      ensures r == Allocation.EnsureVMNetworkUsable(store.tables, vm)
    {
      match vm.net.mode {
        case Shared =>
          var n := D.GetNetwork(store.tables, vm.net.networkId);
          if n.None? { return Err(NotFound); }
          var conflict := FindCIDROverlap(store.tables, n.value.cidr, n.value.id);
          r := if conflict.Some? then Err(Conflict) else Ok(());
        case OtherNetwork => r := Ok(());
        case _ =>
          var c := RoutedRange(vm.net);
          if c.None? { return Ok(()); }
          var conflict := FindCIDROverlap(store.tables, c.value, vm.id);
          r := if conflict.Some? then Err(Conflict) else Ok(());
      }
    }

    method StartVM(id: Id, env: L.StartEnv) returns (r: Result<()>)
      modifies this`nft, store
      ensures (State(), r) == L.StartVM(setup, old(State()), id, env)
    {
      hide Compile, Allocation.EnsureVMNetworkUsable, D.UpdateVM, L.ValidIFName, L.TapNameForID;
      var row := D.GetVM(store.tables, id);
      if row.None? { return Err(NotFound); }
      var vm := row.value;
      if !L.ValidIFName(vm.tapName) {
        if IsActive(vm) { return Err(Internal); }
        vm := vm.(tapName := L.TapNameForID(vm.id));
        var ok := store.UpdateVM(vm);
        if !ok { return Err(Internal); }
      }
      var usable := EnsureVMNetworkUsable(vm);
      if usable.Err? { return Err(usable.code); }
      if vm.state == Running && env.processRunning { return Ok(()); }
      r := Launch(vm, env);
    }

    method Launch(vm: VM, env: L.StartEnv) returns (r: Result<()>)
      modifies this`nft, store
      ensures (State(), r) == L.Launch(setup, old(State()), vm, env)
    {
      hide Compile, D.UpdateVM;
      var starting := vm.(state := Starting);
      var ok := store.UpdateVM(starting);
      if !ok { return Err(Internal); }
      if !env.tapOk {
        FailVM(starting);
        return Err(Internal);
      }
      var applied := ApplyNFT(env.nft);
      if !applied || !env.firecrackerOk {
        FailVM(starting);
        return Err(Internal);
      }
      ok := store.UpdateVM(vm.(state := Running));
      r := if ok then Ok(()) else Err(Internal);
    }

    method StopVM(id: Id, cleanupOk: bool, env: L.Nft) returns (r: Result<()>)
      modifies this`nft, store
      ensures (State(), r) == L.StopVM(setup, old(State()), id, cleanupOk, env)
    {
      hide Compile, D.UpdateVM;
      var row := D.GetVM(store.tables, id);
      if row.None? { return Err(NotFound); }
      var _ := store.UpdateVM(row.value.(state := Stopping));
      var ok := store.UpdateVM(row.value.(state := Stopped));
      if !ok { return Err(Internal); }
      var applied := ApplyNFT(env);
      r := if applied && cleanupOk then Ok(()) else Err(Internal);
    }

    method DeleteVM(id: Id, cleanupOk: bool, env: L.Nft) returns (r: Result<()>)
      modifies this`nft, store
      ensures (State(), r) == L.DeleteVMCall(setup, old(State()), id, cleanupOk, env)
    {
      if D.GetVM(store.tables, id).None? { return Err(NotFound); }
      r := StopVM(id, cleanupOk, env);
      if r.Ok? {
        store.DeleteVM(id);
      }
    }

    method Reconcile(alive: set<Id>, env: L.Nft)
      modifies this`nft, store
      ensures State() == L.Reconcile(setup, old(State()), alive, env)
    {
      hide Compile, D.UpdateVM;
      var vms := store.tables.vms;
      var changed, hasRunning := false, false;
      assert vms[0..] == vms;
      for i := 0 to |vms|
        invariant L.ReconcileRows(store.tables, vms[i..], alive) == L.ReconcileRows(old(store.tables), vms, alive)
        invariant hasRunning <==> exists v :: v in vms[..i] && L.MaybeRunning(v)
        invariant changed ==> hasRunning
        invariant nft == old(nft)
      {
        assert vms[i..][1..] == vms[i + 1..];
        assert vms[..i + 1] == vms[..i] + [vms[i]];
        if L.MaybeRunning(vms[i]) {
          hasRunning := true;
          if vms[i].id !in alive {
            var ok := store.UpdateVM(vms[i].(state := Stopped));
            if !ok { return; }
            changed := true;
          }
        }
      }
      assert vms[..|vms|] == vms;
      if changed || hasRunning {
        var _ := ApplyNFT(env);
      }
    }

    method RebuildIfActive(vm: VM, env: L.Nft) returns (r: Result<()>)
      modifies this`nft
      ensures (State(), r) == L.RebuildIfActive(setup, old(State()), vm, env)
    {
      hide Compile;
      r := Ok(());
      if IsActive(vm) {
        var applied := ApplyNFT(env);
        r := if applied then Ok(()) else Err(Internal);
      }
    }

    method SetVMEgressPolicy(id: Id, mode: EgressMode, policyId: Id, env: L.Nft) returns (r: Result<()>)
      modifies this`nft, store
      ensures (State(), r) == L.SetVMEgressPolicy(setup, old(State()), id, mode, policyId, env)
    {
      hide D.UpdateVM, L.RebuildIfActive;
      var row := D.GetVM(store.tables, id);
      if row.None? { return Err(NotFound); }
      var vm := row.value;
      if policyId != "" {
        var policy := D.GetEgressPolicy(store.tables, policyId);
        if policy.None? { return Err(NotFound); }
        vm := vm.(egressMode := policy.value.mode, egressPolicyId := policyId);
      } else {
        var chosen := if mode == UnsetEgress then AllowAll else mode;
        if chosen != AllowAll && chosen != DenyAll { return Err(Invalid); }
        vm := vm.(egressMode := chosen, egressPolicyId := "");
      }
      var ok := store.UpdateVM(vm);
      if !ok { return Err(Internal); }
      r := RebuildIfActive(vm, env);
    }

    method AddIngressRule(vmId: Id, ruleId: Id, protocol: Option<Protocol>, hostPort: int, guestPort: int,
                          open: set<int>, env: L.Nft) returns (r: Result<()>)
      modifies this`nft, store
      ensures (State(), r) ==
              L.AddIngressRule(setup, old(State()), vmId, ruleId, protocol, hostPort, guestPort, open, env)
    {
      hide D.InsertIngressRule, D.UsedSSHPorts, L.RebuildIfActive;
      var vm := D.GetVM(store.tables, vmId);
      if vm.None? { return Err(NotFound); }
      if protocol.None? { return Err(Invalid); }
      if hostPort < 1 || hostPort > 65535 || guestPort < 1 || guestPort > 65535 { return Err(Invalid); }
      if hostPort in D.UsedSSHPorts(store.tables) || hostPort in open { return Err(Conflict); }
      var ok := store.CreateIngressRule(IngressRule(ruleId, vmId, protocol.value, hostPort, guestPort));
      if !ok { return Err(Internal); }
      r := RebuildIfActive(vm.value, env);
    }

    method DeleteIngressRule(vmId: Id, ruleId: Id, env: L.Nft) returns (r: Result<()>)
      modifies this`nft, store
      ensures (State(), r) == L.DeleteIngressRuleCall(setup, old(State()), vmId, ruleId, env)
    {
      hide L.RebuildIfActive, D.DeleteIngressRule;
      var vm := D.GetVM(store.tables, vmId);
      if vm.None? { return Err(NotFound); }
      store.DeleteIngressRule(vmId, ruleId);
      r := RebuildIfActive(vm.value, env);
    }

    method CreateNetwork(nameOk: bool, id: Id, name: string, text: Option<CidrText>, gateway: Option<u32>)
      returns (r: Result<Network>)
      modifies store
      ensures (store.tables, r) == L.CreateNetwork(setup, old(store.tables), nameOk, id, name, text, gateway)
    {
      hide D.InsertNetwork;
      if !nameOk { return Err(Invalid); }
      var valid := ValidateSharedNetwork(setup.vmCidr, store.tables, text, gateway);
      if valid.Err? { return Err(valid.code); }
      var n := Network(id, name, valid.value.0, valid.value.1);
      var ok := store.CreateNetwork(n);
      r := if ok then Ok(n) else Err(Internal);
    }

    method DeleteNetwork(id: Id, cleanupOk: bool) returns (r: Result<()>)
      modifies store
      ensures (store.tables, r) == L.DeleteNetworkCall(old(store.tables), id, cleanupOk)
    {
      if D.GetNetwork(store.tables, id).None? { return Err(NotFound); }
      var ok := store.DeleteNetwork(id);
      r := if ok && cleanupOk then Ok(()) else Err(Internal);
    }
  }
}
