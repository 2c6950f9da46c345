/** From what a call asked for to what the host then does with packets. */
module Requested {
  import opened Cidr
  import opened Model
  import opened Database
  import opened Allocation
  import opened Firewall
  import opened FirewallMeaning
  import opened OtherChains
  import opened Lifecycle
  import opened Invariants
  import opened Sync
  import opened Calls
  import opened Enforcement

  /** The address is protected: by the configured list, or without one as loopback or the metadata address. */
  predicate IsProtected(cfg: Config, ip: u32) {
    if cfg.protectedCidrs == [] then 0x7f00_0000 <= ip <= 0x7fff_ffff || ip == 0xa9fe_a9fe
    else exists c :: c in cfg.protectedCidrs && InRange(c, ip)
  }

  /** A policy's lists admit the packet. */
  predicate Listed(q: EgressPolicy, p: Packet) {
    || (p.protocol == Some(Tcp) && p.dport in q.tcpPorts)
    || (p.protocol == Some(Udp) && p.dport in q.udpPorts)
    || exists c :: c in q.cidrs && InRange(c, p.dst)
  }

  /** The mode the row holds itself decides about an unprotected address when the row names no policy. */
  lemma OwnMode(s: Setup, h: Host, v: VM, p: Packet)
    requires Inv(s, h.tables) && Synced(s, h) && NamesApart(s, h.tables) && v in h.tables.vms && IsActive(v)
    requires Outbound(s.fw, p) && p.iif == DeviceOf(v) && p.src == v.net.guestIP
    ensures IsProtected(s.fw, p.dst) ==> FirstVerdict(h.nft.forward, p) == Some(Drop)
    ensures v.egressPolicyId == "" && v.egressMode == DenyAll ==> FirstVerdict(h.nft.forward, p) == Some(Drop)
    ensures v.egressPolicyId == "" && v.egressMode == AllowAll && !IsProtected(s.fw, p.dst) ==>
              FirstVerdict(h.nft.forward, p) == Some(Accept)
  {
    hide Inv, NamesApart, Synced, DeviceOf, Outbound, FirstVerdict, InAny;
    EgressNow(s, h, v, p);
    ProtectedAddresses(s.fw, p.dst);
  }

  /** The policy the row names decides by its mode and lists. */
  lemma NamedPolicy(s: Setup, h: Host, v: VM, q: EgressPolicy, p: Packet)
    requires Inv(s, h.tables) && Synced(s, h) && NamesApart(s, h.tables) && v in h.tables.vms && IsActive(v)
    requires q in h.tables.policies && q.id == v.egressPolicyId != "" && !IsProtected(s.fw, p.dst)
    requires Outbound(s.fw, p) && p.iif == DeviceOf(v) && p.src == v.net.guestIP
    ensures q.mode == AllowAll ==> FirstVerdict(h.nft.forward, p) == Some(Accept)
    ensures q.mode == DenyAll ==> FirstVerdict(h.nft.forward, p) == Some(Drop)
    ensures q.mode == Restricted ==> FirstVerdict(h.nft.forward, p) == Some(if Listed(q, p) then Accept else Drop)
  {
    hide Inv, NamesApart, Synced, DeviceOf, Outbound, FirstVerdict, Contains, InRange;
    EgressNow(s, h, v, p);
    ProtectedAddresses(s.fw, p.dst);
    ThatPolicy(s, h.tables, q);
    forall c: IPNet
      ensures Contains(c, p.dst) <==> InRange(c, p.dst)
    {
      ContainsIffInRange(c, p.dst);
    }
  }

  lemma ThatPolicy(s: Setup, t: Tables, q: EgressPolicy)
    requires Inv(s, t) && q in t.policies
    ensures GetEgressPolicy(t, q.id) == Some(q)
  {
  }

  lemma SameNames(s: Setup, t: Tables, u: Tables, row: VM, vm: VM)
    requires NamesApart(s, t) && row in t.vms && OnlyRow(t, u, vm) && Distinct(t.vms)
    requires vm == row.(egressMode := vm.egressMode, egressPolicyId := vm.egressPolicyId)
    ensures NamesApart(s, u) && vm in u.vms
  {
    hide BridgeName;
    forall i | 0 <= i < |t.vms|
      ensures IsActive(u.vms[i]) == IsActive(t.vms[i]) && u.vms[i].net == t.vms[i].net
      ensures u.vms[i].tapName == t.vms[i].tapName
    {
      if t.vms[i].id == row.id {
        DistinctRows(t.vms, t.vms[i], row);
      }
    }
    var i :| 0 <= i < |t.vms| && t.vms[i] == row;
    assert u.vms[i] == vm;
  }

  /** SetVMEgressPolicy on an active VM takes effect: once the rebuild succeeds, deny_all drops every new packet of the
      VM's own to the LAN, and allow_all accepts all but those to protected addresses. */
  lemma EgressModeHolds(s: Setup, h: Host, v: VM, mode: EgressMode, nft: Nft, p: Packet)
    requires Inv(s, h.tables) && NamesApart(s, h.tables) && v in h.tables.vms && IsActive(v) && nft.nftOk
    requires mode == AllowAll || mode == DenyAll
    requires Outbound(s.fw, p) && p.iif == DeviceOf(v) && p.src == v.net.guestIP
    ensures var (h1, r) := SetVMEgressPolicy(s, h, v.id, mode, "", nft);
            r == Ok(())
            && FirstVerdict(h1.nft.forward, p)
               == Some(if mode == DenyAll || IsProtected(s.fw, p.dst) then Drop else Accept)
  {
    hide Inv, NamesApart, Synced, Outbound, FirstVerdict, SetVMEgressPolicy, OnlyRow, IsProtected;
    var (h1, r) := SetVMEgressPolicy(s, h, v.id, mode, "", nft);
    SetPolicyExactly(s, h, v.id, mode, "", nft);
    InvDistinct(s, h.tables);
    ExecKeepsInv(s, h, CallSetVMEgressPolicy(v.id, mode, "", nft));
    var row, stored :| row in h.tables.vms && row.id == v.id && ModeStored(h.tables, mode, "", stored)
      && OnlyRow(h.tables, h1.tables, row.(egressMode := stored, egressPolicyId := ""))
      && (if IsActive(row) then Rebuilt(s, h1, nft) else h1.nft == h.nft)
      && r == if IsActive(row) && !nft.nftOk then Err(Internal) else Ok(());
    DistinctRows(h.tables.vms, row, v);
    var vm := row.(egressMode := stored, egressPolicyId := "");
    SameNames(s, h.tables, h1.tables, row, vm);
    OwnMode(s, h1, vm, p);
  }

  /** SetVMEgressPolicy with a restricted policy: only what its lists admit gets out. */
  lemma RestrictedPolicyHolds(s: Setup, h: Host, v: VM, q: EgressPolicy, nft: Nft, p: Packet)
    requires Inv(s, h.tables) && NamesApart(s, h.tables) && v in h.tables.vms && IsActive(v) && nft.nftOk
    requires q in h.tables.policies && q.id != "" && q.mode == Restricted
    requires Outbound(s.fw, p) && p.iif == DeviceOf(v) && p.src == v.net.guestIP
    ensures var (h1, r) := SetVMEgressPolicy(s, h, v.id, UnsetEgress, q.id, nft);
            r == Ok(())
            && FirstVerdict(h1.nft.forward, p)
               == Some(if !IsProtected(s.fw, p.dst) && Listed(q, p) then Accept else Drop)
  {
    hide Inv, NamesApart, Synced, Outbound, FirstVerdict, SetVMEgressPolicy, OnlyRow, IsProtected, Listed;
    var (h1, r) := SetVMEgressPolicy(s, h, v.id, UnsetEgress, q.id, nft);
    SetPolicyExactly(s, h, v.id, UnsetEgress, q.id, nft);
    InvDistinct(s, h.tables);
    ExecKeepsInv(s, h, CallSetVMEgressPolicy(v.id, UnsetEgress, q.id, nft));
    var row, stored :| row in h.tables.vms && row.id == v.id && ModeStored(h.tables, UnsetEgress, q.id, stored)
      && OnlyRow(h.tables, h1.tables, row.(egressMode := stored, egressPolicyId := q.id))
      && (if IsActive(row) then Rebuilt(s, h1, nft) else h1.nft == h.nft)
      && r == if IsActive(row) && !nft.nftOk then Err(Internal) else Ok(());
    DistinctRows(h.tables.vms, row, v);
    var vm := row.(egressMode := stored, egressPolicyId := q.id);
    SameNames(s, h.tables, h1.tables, row, vm);
    KeptPolicies(h.tables, h1.tables, vm);
    OwnMode(s, h1, vm, p);
    if !IsProtected(s.fw, p.dst) {
      NamedPolicy(s, h1, vm, q, p);
    }
  }

  lemma KeptPolicies(t: Tables, u: Tables, vm: VM)
    requires OnlyRow(t, u, vm)
    ensures u.policies == t.policies
  {
  }

  /** AddIngressRule on an active VM takes effect: once it succeeds, a LAN packet to the host port asked for goes to the
      VM's address and the guest port asked for, and a rule accepts it when its source is no active guest. */
  lemma AddedRuleServes(s: Setup, h: Host, v: VM, ruleId: Id, protocol: Protocol, hostPort: int, guestPort: int,
                        open: set<int>, nft: Nft, p: Packet)
    requires Inv(s, h.tables) && NamesApart(s, h.tables) && v in h.tables.vms && IsActive(v)
    requires AddIngressRule(s, h, v.id, ruleId, Some(protocol), hostPort, guestPort, open, nft).1.Ok?
    requires p.isNew && p.iif == s.fw.lan && p.protocol == Some(protocol) && p.dport == hostPort
    requires forall w :: w in h.tables.vms && IsActive(w) ==> w.net.guestIP != p.src
    ensures var h1 := AddIngressRule(s, h, v.id, ruleId, Some(protocol), hostPort, guestPort, open, nft).0;
            Rewrite(h1.nft.prerouting, p) == Some((v.net.guestIP, guestPort))
            && var q := p.(dst := v.net.guestIP, dport := guestPort, oif := DeviceOf(v));
               FirstVerdict(h1.nft.forward, q) == Some(Accept)
  {
    hide Inv, NamesApart, Synced, FirstVerdict, Rewrite, AddIngressRule, DeviceOf;
    var (h1, r) := AddIngressRule(s, h, v.id, ruleId, Some(protocol), hostPort, guestPort, open, nft);
    AddIngressExactly(s, h, v.id, ruleId, Some(protocol), hostPort, guestPort, open, nft);
    InvDistinct(s, h.tables);
    ExecKeepsInv(s, h, CallAddIngressRule(v.id, ruleId, Some(protocol), hostPort, guestPort, open, nft));
    var rule := IngressRule(ruleId, v.id, protocol, hostPort, guestPort);
    var row :| row in h.tables.vms && row.id == v.id && OneMoreRule(h.tables, h1.tables, rule)
      && (if IsActive(row) then Rebuilt(s, h1, nft) else h1.nft == h.nft)
      && r == if IsActive(row) && !nft.nftOk then Err(Internal) else Ok(());
    DistinctRows(h.tables.vms, row, v);
    SameRowsApart(s, h.tables, h1.tables);
    assert rule in h1.tables.ingress;
    var m := Mapping(protocol, hostPort, guestPort);
    assert RowPublishes(h1.tables, v, m);
    IngressNow(s, h1, v, m, p);
  }

  lemma SameRowsApart(s: Setup, t: Tables, u: Tables)
    requires NamesApart(s, t) && u.vms == t.vms
    ensures NamesApart(s, u)
  {
  }

  // ---------------------------------------------------------------------------------------------
  // Runs in which nothing fails

  /** No command that the call runs fails. */
  predicate Smooth(c: Call) {
    match c
    case CallStartVM(_, env) => env.tapOk && env.nft.nftOk && env.firecrackerOk
    case CallStopVM(_, _, nft) => nft.nftOk
    case CallDeleteVM(_, _, nft) => nft.nftOk
    case CallReconcile(_, nft) => nft.nftOk
    case CallCleanupHostOrphans(nft) => nft.nftOk
    case CallSetVMEgressPolicy(_, _, _, nft) => nft.nftOk
    case CallAddIngressRule(_, _, _, _, _, _, nft) => nft.nftOk
    case CallDeleteIngressRule(_, _, nft) => nft.nftOk
    case _ => true
  }

  lemma {:induction false} SmoothStaysClean(s: Setup, h: Host, calls: seq<Call>)
    requires forall c :: c in calls ==> Smooth(c)
    ensures Clean(s, h, calls, true)
    decreases |calls|
  {
    hide Exec, Rebuilds;
    if calls != [] {
      assert Smooth(calls[0]);
      assert Sound(h, calls[0]);
      SmoothStaysClean(s, Exec(s, h, calls[0]), calls[1..]);
    }
  }

  /** A run of calls in which no command fails is clean once it has cleaned up the host, as it does at start-up. */
  lemma SmoothIsClean(s: Setup, h: Host, nft: Nft, calls: seq<Call>)
    requires nft.nftOk && forall c :: c in calls ==> Smooth(c)
    ensures Clean(s, h, [CallCleanupHostOrphans(nft)] + calls, false)
  {
    hide Exec;
    var cleanup := CallCleanupHostOrphans(nft);
    assert ([cleanup] + calls)[1..] == calls;
    SmoothStaysClean(s, Exec(s, h, cleanup), calls);
  }

  /** Every call that succeeds on an active VM, or that stops, deletes or starts one, has rebuilt the firewall. */
  lemma SuccessRebuilds(s: Setup, h: Host, id: Id, ok: bool, nft: Nft)
    requires Inv(s, h.tables)
    ensures StopVM(s, h, id, ok, nft).1.Ok? ==> Rebuilds(h, CallStopVM(id, ok, nft))
    ensures DeleteVMCall(s, h, id, ok, nft).1.Ok? ==> Rebuilds(h, CallDeleteVM(id, ok, nft))
    ensures forall ruleId | DeleteIngressRuleCall(s, h, id, ruleId, nft).1.Ok? && ActiveRow(h.tables, id) ::
              Rebuilds(h, CallDeleteIngressRule(id, ruleId, nft))
    ensures forall mode, policyId |
              SetVMEgressPolicy(s, h, id, mode, policyId, nft).1.Ok? && ActiveRow(h.tables, id) ::
              Rebuilds(h, CallSetVMEgressPolicy(id, mode, policyId, nft))
  {
    hide Inv, Compile, UpdateVM, EgressChoice;
  }

  lemma StartRebuilds(s: Setup, h: Host, id: Id, env: StartEnv, row: VM)
    requires Inv(s, h.tables) && row in h.tables.vms && row.id == id
    requires StartVM(s, h, id, env).1.Ok? && !(row.state == Running && env.processRunning)
    ensures Rebuilds(h, CallStartVM(id, env))
  {
    hide Inv, Compile, UpdateVM, ValidIFName, TapNameForID, EnsureVMNetworkUsable;
    ThatVM(s, h.tables, row);
  }
}
