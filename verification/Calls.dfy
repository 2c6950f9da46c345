/** What each call does to the rows, said without the functions that compute it: which requests are accepted, which
    columns are stored, which rows change, and which table is installed afterwards. */
module Calls {
  import opened Cidr
  import opened Model
  import opened Database
  import opened Allocation
  import opened Firewall
  import opened Lifecycle
  import opened Invariants
  import opened Sync
  import opened Outcomes

  // ---------------------------------------------------------------------------------------------
  // Rows

  /** Row i is replaced by `vm` when it has its id; nothing else in the database changes. */
  predicate OnlyRow(t: Tables, u: Tables, vm: VM) {
    && |u.vms| == |t.vms|
    && (forall i :: 0 <= i < |t.vms| ==> u.vms[i] == if t.vms[i].id == vm.id then vm else t.vms[i])
    && u == t.(vms := u.vms)
  }

  /** What one run of applyNFT leaves: the compiled registry, or the wreck of a failed run. */
  predicate Rebuilt(s: Setup, h: Host, nft: Nft) {
    if nft.nftOk then Synced(s, h) else h.nft == nft.wreck
  }

  lemma RowStored(s: Setup, t: Tables, row: VM, vm: VM)
    requires Inv(s, t) && row in t.vms && SameIdentity(vm, row) && vm.tapName == row.tapName && VMRefs(t, vm)
    ensures UpdateVM(t, vm) == Some(Put(t, vm)) && OnlyRow(t, Put(t, vm), vm) && Inv(s, Put(t, vm))
  {
    hide Inv, VMRefs, UpdateVM;
    PutKeepsInv(s, t, row, vm);
  }

  lemma NoSuchVM(t: Tables, id: Id)
    ensures GetVM(t, id).None? <==> forall v :: v in t.vms ==> v.id != id
  {
  }

  lemma ThatVM(s: Setup, t: Tables, row: VM)
    requires Inv(s, t) && row in t.vms
    ensures GetVM(t, row.id) == Some(row)
  {
    hide Inv;
    InvDistinct(s, t);
    var v := GetVM(t, row.id).value;
    DistinctRows(t.vms, v, row);
  }

  // ---------------------------------------------------------------------------------------------
  // CreateVM

  /** The mode a row gets: its policy's mode, or without a policy the one asked for, allow_all when none was. */
  predicate ModeStored(t: Tables, asked: EgressMode, policyId: Id, stored: EgressMode) {
    if policyId != "" then exists p :: p in t.policies && p.id == policyId && p.mode == stored
    else stored == (if asked == UnsetEgress then AllowAll else asked) && (stored == AllowAll || stored == DenyAll)
  }

  lemma ChoiceMeans(t: Tables, asked: EgressMode, policyId: Id)
    ensures var r := EgressChoice(t, asked, policyId); r.Ok? ==> ModeStored(t, asked, policyId, r.value)
    ensures EgressChoice(t, asked, policyId).Ok? <==>
            if policyId != "" then exists p :: p in t.policies && p.id == policyId
            else asked == UnsetEgress || asked == AllowAll || asked == DenyAll
    ensures var r := EgressChoice(t, asked, policyId);
            r.Err? ==> r == Err(if policyId != "" then NotFound else Invalid)
  {
  }

  function NetworkModeAsked(s: Setup, req: CreateRequest): NetworkMode {
    if req.mode == UnsetNetwork then s.defaultMode else req.mode
  }

  /** Every column of the row is the one asked for. */
  predicate RowAsked(s: Setup, t: Tables, req: CreateRequest, vm: VM) {
    && vm.id == req.id && vm.name == req.name && vm.state == Stopped
    && vm.net.mode == (if req.mode == UnsetNetwork then s.defaultMode else req.mode)
    && vm.net.networkId == req.networkId
    && vm.egressPolicyId == req.egressPolicyId && ModeStored(t, req.egressMode, req.egressPolicyId, vm.egressMode)
    && vm.sshKeyId == req.sshKeyId
    && req.kernel == Ok(vm.kernelId) && vm.kernelId in t.kernels && vm.kernelPath == t.kernels[vm.kernelId]
    && req.image == Ok(vm.baseImageId)
    && (req.sshPort != 0 ==> vm.sshPort == req.sshPort)
    && s.portStart <= vm.sshPort <= s.portEnd && vm.sshPort !in req.openPorts
    && (|req.id| <= 11 ==> vm.tapName == "tap-" + req.id)
    && (|req.id| > 11 ==> vm.tapName == "tap-" + req.id[..11])
  }

  /** A port is to be had: the requested one, or any of the range. */
  predicate PortLeft(s: Setup, t: Tables, req: CreateRequest) {
    exists p :: s.portStart <= p <= s.portEnd && p !in req.openPorts && (req.sshPort == 0 || p == req.sshPort)
                && (forall v :: v in t.vms ==> v.sshPort != p) && (forall r :: r in t.ingress ==> r.hostPort != p)
  }

  lemma PortGiven(s: Setup, t: Tables, req: CreateRequest)
    ensures var r := AllocatePort(s.portStart, s.portEnd, t, req.openPorts, req.sshPort);
            (r.Ok? <==> PortLeft(s, t, req))
            && (r.Ok? ==> s.portStart <= r.value <= s.portEnd && r.value !in req.openPorts
                          && (req.sshPort != 0 ==> r.value == req.sshPort))
  {
    var r := AllocatePort(s.portStart, s.portEnd, t, req.openPorts, req.sshPort);
    forall p
      ensures p in UsedSSHPorts(t) <==> exists v :: v in t.vms && v.sshPort == p
      ensures p in UsedIngressHostPorts(t) <==> exists x :: x in t.ingress && x.hostPort == p
    {
    }
    if p :| s.portStart <= p <= s.portEnd && p !in req.openPorts && (req.sshPort == 0 || p == req.sshPort)
            && (forall v :: v in t.vms ==> v.sshPort != p) && (forall x :: x in t.ingress ==> x.hostPort != p) {
      assert p !in UsedSSHPorts(t) && p !in UsedIngressHostPorts(t);
    }
  }

  /** What CreateVM needs besides a lease and a port. */
  predicate Acceptable(s: Setup, t: Tables, req: CreateRequest) {
    && req.fieldsOk && (NetworkModeAsked(s, req) == Routed || NetworkModeAsked(s, req) == Shared)
    && (if req.egressPolicyId != "" then exists p :: p in t.policies && p.id == req.egressPolicyId
        else req.egressMode == UnsetEgress || req.egressMode == AllowAll || req.egressMode == DenyAll)
    && (forall v :: v in t.vms ==> v.name != req.name)
    && req.kernel.Ok? && req.kernel.value in t.kernels && req.image.Ok? && req.image.value in t.images
    && (if req.sshKeyId != "" then req.sshKeyId in t.sshKeys else req.extraKeys)
    && req.rootfsOk
  }

  lemma PlanMeans(s: Setup, t: Tables, req: CreateRequest)
    ensures PlanVM(s, t, req).Ok? <==>
            Acceptable(s, t, req) && PortLeft(s, t, req)
            && AllocateNetwork(s, t, NetworkModeAsked(s, req), req.networkId).Ok?
    ensures PlanVM(s, t, req).Ok? ==> RowAsked(s, t, req, PlanVM(s, t, req).value)
    ensures PlanVM(s, t, req).Ok? ==>
              var l := AllocateNetwork(s, t, NetworkModeAsked(s, req), req.networkId).value;
              var a := PlanVM(s, t, req).value.net;
              a.hostIP == Some(l.host) && a.guestIP == l.guest && a.prefix == l.prefix
  {
    hide AllocateNetwork, AllocatePort, EgressChoice, PortLeft, ModeStored;
    ChoiceMeans(t, req.egressMode, req.egressPolicyId);
    PortGiven(s, t, req);
  }

  lemma LeaseUnused(s: Setup, t: Tables, mode: NetworkMode, networkId: Id)
    requires AllocateNetwork(s, t, mode, networkId).Ok?
    ensures forall v :: v in t.vms ==> v.net.guestIP != AllocateNetwork(s, t, mode, networkId).value.guest
  {
    hide LowestBlock, LowestHost, OverlapFound, CidrOverlaps, P2PBlock, P2PCount;
    var used, r := UsedGuestIPs(t), AllocateNetwork(s, t, mode, networkId).value;
    if mode == Routed {
      assert r.guest !in used by {
        var k := LowestBlock(s.vmCidr, used, NetworkCidrs(t), 0).value;
        assert BlockFree(P2PBlock(s.vmCidr, k), used, NetworkCidrs(t));
      }
    } else {
      PlannedShared(GetNetwork(t, networkId).value, used);
    }
  }

  /** CreateVM succeeds exactly when the request is acceptable, a port and a lease are left, and no row has the new id
      or TAP name. It then adds one row, first, with exactly the columns asked for and the lease; otherwise it changes
      nothing. */
  lemma CreateVMExactly(s: Setup, t: Tables, req: CreateRequest)
    ensures
      var (u, r) := CreateVM(s, t, req);
      && (r.Ok? <==> Acceptable(s, t, req) && PortLeft(s, t, req)
                     && AllocateNetwork(s, t, NetworkModeAsked(s, req), req.networkId).Ok?
                     && forall v :: v in t.vms ==> v.id != req.id && v.tapName != TapNameForID(req.id))
      && (r.Err? ==> u == t)
      && (r.Ok? ==> u == t.(vms := [r.value] + t.vms) && RowAsked(s, t, req, r.value)
                    && var l := AllocateNetwork(s, t, NetworkModeAsked(s, req), req.networkId).value;
                       r.value.net.hostIP == Some(l.host) && r.value.net.guestIP == l.guest
                       && r.value.net.prefix == l.prefix)
  {
    hide Acceptable, PortLeft, AllocateNetwork, RowAsked;
    PlanMeans(s, t, req);
    if PlanVM(s, t, req).Ok? {
      var vm := PlanVM(s, t, req).value;
      PlanKeys(s, t, req);
      LeaseUnused(s, t, NetworkModeAsked(s, req), req.networkId);
      hide PlanVM;
      assert forall v :: v in t.vms ==> (Clash(vm, v) <==> v.id == vm.id || v.tapName == vm.tapName);
    }
  }

  /** The first check that fails gives the error: the fields, the network mode, the egress choice, the name, the kernel,
      the image, the SSH key, the port, the lease, and last the root filesystem and the insert. */
  lemma CreateVMCodes(s: Setup, t: Tables, req: CreateRequest)
    ensures
      var r := CreateVM(s, t, req).1;
      var mode := NetworkModeAsked(s, req);
      if !req.fieldsOk || (mode != Routed && mode != Shared) then r == Err(Invalid)
      else if req.egressPolicyId != "" && (forall p :: p in t.policies ==> p.id != req.egressPolicyId)
      then r == Err(NotFound)
      else if req.egressPolicyId == "" && (req.egressMode == Restricted || req.egressMode == OtherEgress)
      then r == Err(Invalid)
      else if exists v :: v in t.vms && v.name == req.name then r == Err(Conflict)
      else if req.kernel.Err? then r == Err(req.kernel.code)
      else if req.kernel.value !in t.kernels then r == Err(NotFound)
      else if req.image.Err? then r == Err(req.image.code)
      else if req.image.value !in t.images || (req.sshKeyId != "" && req.sshKeyId !in t.sshKeys)
      then r == Err(NotFound)
      else if req.sshKeyId == "" && !req.extraKeys then r == Err(Unprocessable)
      else if !PortLeft(s, t, req) then
        r == Err(if req.sshPort != 0 && !(s.portStart <= req.sshPort <= s.portEnd) then Invalid else Conflict)
      else
        var lease := AllocateNetwork(s, t, mode, req.networkId);
        r.Err? ==> r == Err(if lease.Err? then lease.code else Internal)
  {
    hide AllocateNetwork, EgressChoice, PortLeft, ModeStored, LowestPort, UsedSSHPorts, UsedIngressHostPorts, InsertVM;
    ChoiceMeans(t, req.egressMode, req.egressPolicyId);
    PortGiven(s, t, req);
    PortRefused(s, t, req);
  }

  lemma PortRefused(s: Setup, t: Tables, req: CreateRequest)
    ensures var r := AllocatePort(s.portStart, s.portEnd, t, req.openPorts, req.sshPort);
            r.Err? ==>
              r == Err(if req.sshPort != 0 && !(s.portStart <= req.sshPort <= s.portEnd) then Invalid else Conflict)
  {
    hide LowestPort;
  }

  lemma PlanKeys(s: Setup, t: Tables, req: CreateRequest)
    requires PlanVM(s, t, req).Ok?
    ensures var vm := PlanVM(s, t, req).value;
            vm.id == req.id && vm.tapName == TapNameForID(req.id)
            && forall v :: v in t.vms ==> v.name != vm.name && v.sshPort != vm.sshPort
  {
    hide AllocateNetwork, EgressChoice, LowestPort;
    var port := AllocatePort(s.portStart, s.portEnd, t, req.openPorts, req.sshPort).value;
    assert port !in UsedSSHPorts(t);
  }

  // ---------------------------------------------------------------------------------------------
  // SetVMEgressPolicy

  /** SetVMEgressPolicy refuses exactly a missing VM, a missing policy and, without a policy, a mode other than
      allow_all and deny_all; then nothing changes. Otherwise exactly the two egress columns of the row change, and the
      firewall of an active VM is rebuilt. */
  lemma SetPolicyExactly(s: Setup, h: Host, id: Id, mode: EgressMode, policyId: Id, nft: Nft)
    requires Inv(s, h.tables)
    ensures
      var t := h.tables;
      var (h1, r) := SetVMEgressPolicy(s, h, id, mode, policyId, nft);
      if forall v :: v in t.vms ==> v.id != id then (h1, r) == (h, Err(NotFound))
      else if policyId != "" && forall p :: p in t.policies ==> p.id != policyId then (h1, r) == (h, Err(NotFound))
      else if policyId == "" && mode != UnsetEgress && mode != AllowAll && mode != DenyAll
      then (h1, r) == (h, Err(Invalid))
      else exists row, stored ::
        && row in t.vms && row.id == id && ModeStored(t, mode, policyId, stored)
        && OnlyRow(t, h1.tables, row.(egressMode := stored, egressPolicyId := policyId))
        && (if IsActive(row) then Rebuilt(s, h1, nft) else h1.nft == h.nft)
        && r == if IsActive(row) && !nft.nftOk then Err(Internal) else Ok(())
  {
    hide Inv, Compile, UpdateVM, EgressChoice, ModeStored, OnlyRow;
    ChoiceMeans(h.tables, mode, policyId);
    NoSuchVM(h.tables, id);
    var choice := EgressChoice(h.tables, mode, policyId);
    if GetVM(h.tables, id).Some? && choice.Ok? {
      var row := GetVM(h.tables, id).value;
      var vm := row.(egressMode := choice.value, egressPolicyId := policyId);
      ChosenRefs(s, h.tables, row, mode, policyId);
      RowStored(s, h.tables, row, vm);
      ApplyRestores(s, h.(tables := Put(h.tables, vm)), nft);
      ApplyWreck(s, h.(tables := Put(h.tables, vm)), nft);
    }
  }

  lemma OnlyReplaced(t: Tables, vm: VM)
    ensures OnlyRow(t, t.(vms := ReplaceVM(t.vms, vm)), vm)
  {
  }

  lemma RebuiltNow(s: Setup, h: Host, nft: Nft)
    requires Inv(s, h.tables)
    ensures var (h1, applied) := ApplyNFT(s, h, nft);
            applied == nft.nftOk && h1.tables == h.tables && Rebuilt(s, h1, nft)
  {
    hide Inv, Compile;
    ApplyRestores(s, h, nft);
    ApplyWreck(s, h, nft);
  }

  lemma ApplyWreck(s: Setup, h: Host, nft: Nft)
    ensures !nft.nftOk ==> ApplyNFT(s, h, nft) == (h.(nft := nft.wreck), false)
  {
  }

  // ---------------------------------------------------------------------------------------------
  // Ingress rules

  /** The ingress table has exactly one more rule. */
  ghost predicate OneMoreRule(t: Tables, u: Tables, rule: IngressRule) {
    && rule !in t.ingress && |u.ingress| == |t.ingress| + 1
    && (forall r :: r in u.ingress <==> r == rule || r in t.ingress)
    && u == t.(ingress := u.ingress)
  }

  /** AddIngressRule gets past its checks exactly when the VM exists, the protocol is known, both ports are in 1..65535,
      the host port is nobody's SSH port, not open and no rule's host port, and the rule id is new. It then adds exactly
      the rule asked for and rebuilds the firewall of an active VM; otherwise it changes nothing. */
  lemma AddIngressExactly(s: Setup, h: Host, vmId: Id, ruleId: Id, protocol: Option<Protocol>, hostPort: int,
                          guestPort: int, open: set<int>, nft: Nft)
    requires Inv(s, h.tables)
    ensures
      var t := h.tables;
      var (h1, r) := AddIngressRule(s, h, vmId, ruleId, protocol, hostPort, guestPort, open, nft);
      if forall v :: v in t.vms ==> v.id != vmId then (h1, r) == (h, Err(NotFound))
      else if protocol == None || !(1 <= hostPort <= 65535 && 1 <= guestPort <= 65535) then (h1, r) == (h, Err(Invalid))
      else if hostPort in open || exists v :: v in t.vms && v.sshPort == hostPort then (h1, r) == (h, Err(Conflict))
      else if exists x :: x in t.ingress && (x.id == ruleId || x.hostPort == hostPort)
      then (h1, r) == (h, Err(Internal))
      else exists row ::
        && row in t.vms && row.id == vmId
        && OneMoreRule(t, h1.tables, IngressRule(ruleId, vmId, protocol.value, hostPort, guestPort))
        && (if IsActive(row) then Rebuilt(s, h1, nft) else h1.nft == h.nft)
        && r == if IsActive(row) && !nft.nftOk then Err(Internal) else Ok(())
  {
    hide Inv, Compile, OneMoreRule, InsertByPort;
    var t := h.tables;
    NoSuchVM(t, vmId);
    assert hostPort in UsedSSHPorts(t) <==> exists v :: v in t.vms && v.sshPort == hostPort;
    if GetVM(t, vmId).Some? && protocol.Some? && hostPort !in UsedSSHPorts(t) {
      var rule := IngressRule(ruleId, vmId, protocol.value, hostPort, guestPort);
      if InsertIngressRule(t, rule).Some? {
        var u := InsertIngressRule(t, rule).value;
        RuleInserted(t, rule);
        IngressInsertKeepsInv(s, t, rule);
        ApplyRestores(s, h.(tables := u), nft);
        ApplyWreck(s, h.(tables := u), nft);
      }
    }
  }

  lemma RuleInserted(t: Tables, rule: IngressRule)
    requires InsertIngressRule(t, rule).Some?
    ensures OneMoreRule(t, InsertIngressRule(t, rule).value, rule)
  {
    InsertedSize(t.ingress, rule);
  }

  lemma {:induction false} InsertedSize(rules: seq<IngressRule>, r: IngressRule)
    ensures |InsertByPort(rules, r)| == |rules| + 1
  {
    if rules != [] && rules[0].hostPort < r.hostPort {
      InsertedSize(rules[1..], r);
    }
  }

  predicate InPortOrder(rules: seq<IngressRule>) {
    forall i, j :: 0 <= i < j < |rules| ==> rules[i].hostPort <= rules[j].hostPort
  }

  /** The table stays in host-port order. */
  lemma {:induction false} InsertKeepsOrder(rules: seq<IngressRule>, r: IngressRule)
    requires InPortOrder(rules)
    ensures InPortOrder(InsertByPort(rules, r))
  {
    if rules != [] && rules[0].hostPort < r.hostPort {
      InsertKeepsOrder(rules[1..], r);
      var rest := InsertByPort(rules[1..], r);
      forall i | 0 <= i < |rest|
        ensures rules[0].hostPort <= rest[i].hostPort
      {
        assert rest[i] in rest;
        if rest[i] != r {
          var k :| 0 <= k < |rules[1..]| && rules[1..][k] == rest[i];
          assert rules[k + 1] == rest[i];
        }
      }
    }
  }

  /** DeleteIngressRule takes exactly the rule with that id of that VM and rebuilds the firewall of an active VM. */
  lemma DeleteIngressExactly(s: Setup, h: Host, vmId: Id, ruleId: Id, nft: Nft)
    requires Inv(s, h.tables)
    ensures
      var t := h.tables;
      var (h1, r) := DeleteIngressRuleCall(s, h, vmId, ruleId, nft);
      if forall v :: v in t.vms ==> v.id != vmId then (h1, r) == (h, Err(NotFound))
      else exists row ::
        && row in t.vms && row.id == vmId
        && (forall x :: x in h1.tables.ingress <==> x in t.ingress && !(x.id == ruleId && x.vmId == vmId))
        && h1.tables == t.(ingress := h1.tables.ingress)
        && (if IsActive(row) then Rebuilt(s, h1, nft) else h1.nft == h.nft)
        && r == if IsActive(row) && !nft.nftOk then Err(Internal) else Ok(())
  {
    hide Inv, Compile;
    NoSuchVM(h.tables, vmId);
    if GetVM(h.tables, vmId).Some? {
      var u := DeleteIngressRule(h.tables, vmId, ruleId);
      IngressDeleteKeepsInv(s, h.tables, vmId, ruleId);
      ApplyRestores(s, h.(tables := u), nft);
      ApplyWreck(s, h.(tables := u), nft);
    }
  }

  // ---------------------------------------------------------------------------------------------
  // Interface names

  lemma IFNameExactly(name: string)
    ensures ValidIFName(name) <==>
            1 <= |name| <= 15 && '/' !in name && ' ' !in name && '\t' !in name && '\n' !in name && '\r' !in name
  {
    assert forall c :: c in "/ \t\n\r" <==> c == '/' || c == ' ' || c == '\t' || c == '\n' || c == '\r';
  }

  /** The TAP name made from an id is valid exactly when the first eleven characters of the id are, and names of ids
      that differ there are different. */
  lemma TapNames(id: Id, other: Id)
    ensures ValidIFName(TapNameForID(id)) <==>
            forall i :: 0 <= i < |id| && i < 11 ==> id[i] !in "/ \t\n\r"
    ensures TapNameForID(id) == TapNameForID(other) <==>
            (if |id| <= 11 then id else id[..11]) == (if |other| <= 11 then other else other[..11])
  {
    var cut, cutOther := if |id| <= 11 then id else id[..11], if |other| <= 11 then other else other[..11];
    assert TapNameForID(id) == "tap-" + cut && TapNameForID(other) == "tap-" + cutOther;
    assert TapNameForID(id)[4..] == cut && TapNameForID(other)[4..] == cutOther;
    assert forall i :: 0 <= i < |cut| ==> cut[i] == id[i] && TapNameForID(id)[i + 4] == cut[i];
  }

  // ---------------------------------------------------------------------------------------------
  // StartVM, StopVM, DeleteVM

  lemma TapStored(s: Setup, t: Tables, row: VM)
    requires Inv(s, t) && row in t.vms
    ensures var named := row.(tapName := TapNameForID(row.id));
            if exists w :: w in t.vms && w.id != row.id && w.tapName == named.tapName then UpdateVM(t, named) == None
            else UpdateVM(t, named) == Some(t.(vms := ReplaceVM(t.vms, named)))
                 && Inv(s, t.(vms := ReplaceVM(t.vms, named))) && named in ReplaceVM(t.vms, named)
  {
    hide AddressPlan, PortPlan, PoliciesKnown, TapNameForID, ReplaceVM;
    var named := row.(tapName := TapNameForID(row.id));
    InvDistinct(s, t);
    assert VMRefs(t, row);
    forall w | w in t.vms && w.id != row.id
      ensures Clash(named, w) <==> w.tapName == named.tapName
    {
      if Clash(row, w) {
        DistinctRows(t.vms, row, w);
      }
    }
    if UpdateVM(t, named).Some? {
      UpdateKeepsInv(s, t, row, named);
    }
  }

  /** The states a start can end in, by what failed: the TAP, nft, or Firecracker. */
  predicate Started(s: Setup, h: Host, h1: Host, vm: VM, env: StartEnv) {
    && OnlyRow(h.tables, h1.tables,
               vm.(state := if env.tapOk && env.nft.nftOk && env.firecrackerOk then Running else Error))
    && (if !env.tapOk then h1.nft == h.nft
        else if !env.nft.nftOk then h1.nft == env.nft.wreck
        else Compile(s.fw, h.tables.(vms := ReplaceVM(h.tables.vms, vm.(state := Starting)))) == Some(h1.nft))
  }

  lemma LaunchExactly(s: Setup, h: Host, vm: VM, env: StartEnv)
    requires Inv(s, h.tables) && vm in h.tables.vms
    ensures var (h1, r) := Launch(s, h, vm, env);
            Started(s, h, h1, vm, env)
            && r == if env.tapOk && env.nft.nftOk && env.firecrackerOk then Ok(()) else Err(Internal)
  {
    hide Inv, Compile, UpdateVM;
    var starting := vm.(state := Starting);
    StateWrite(s, h.tables, vm, Starting);
    var t1 := Put(h.tables, starting);
    StateWrite(s, t1, starting, Error);
    StateWrite(s, t1, starting, Running);
    ReplaceTwice(h.tables.vms, starting, vm.(state := Error));
    ReplaceTwice(h.tables.vms, starting, vm.(state := Running));
    assert starting.(state := Error) == vm.(state := Error) && starting.(state := Running) == vm.(state := Running);
    ApplyRestores(s, h.(tables := t1), env.nft);
    ApplyWreck(s, h.(tables := t1), env.nft);
  }

  /** StartVM: a missing VM is refused; an active VM with an invalid TAP name too; another VM's invalid name is first
      replaced, unless the new one is taken. A VM that already runs is left alone. In every other case the row ends in
      running or error, and what is installed depends on what failed. */
  lemma StartVMExactly(s: Setup, h: Host, id: Id, env: StartEnv)
    requires Inv(s, h.tables)
    ensures
      var t := h.tables;
      var (h1, r) := StartVM(s, h, id, env);
      if forall v :: v in t.vms ==> v.id != id then (h1, r) == (h, Err(NotFound))
      else exists row ::
        && row in t.vms && row.id == id
        && if !ValidIFName(row.tapName)
              && (IsActive(row) || exists w :: w in t.vms && w.id != id && w.tapName == TapNameForID(id))
           then (h1, r) == (h, Err(Internal))
           else
             var vm := if ValidIFName(row.tapName) then row else row.(tapName := TapNameForID(id));
             var named := h.(tables := t.(vms := ReplaceVM(t.vms, vm)));
             if row.state == Running && env.processRunning then (h1, r) == (named, Ok(()))
             else Started(s, named, h1, vm, env)
                  && r == if env.tapOk && env.nft.nftOk && env.firecrackerOk then Ok(()) else Err(Internal)
  {
    hide Inv, Compile, UpdateVM, ValidIFName, TapNameForID, EnsureVMNetworkUsable, Launch, Started, ReplaceVM;
    var t := h.tables;
    NoSuchVM(t, id);
    if GetVM(t, id).Some? {
      var row := GetVM(t, id).value;
      TapStored(s, t, row);
      InvDistinct(s, t);
      ReplaceSame(t.vms, row);
      if EnsureTapName(t, row).Ok? {
        var (u, vm) := EnsureTapName(t, row).value;
        EnsureTapNameKeepsInv(s, t, row);
        StartCheckPasses(s, u, vm);
        LaunchExactly(s, h.(tables := u), vm, env);
      }
    }
  }

  /** StopVM: the row ends in stopped and the firewall is rebuilt, whatever else happens; the result says whether nft
      and the clean-up worked. */
  lemma StopVMExactly(s: Setup, h: Host, id: Id, cleanupOk: bool, nft: Nft)
    requires Inv(s, h.tables)
    ensures
      var t := h.tables;
      var (h1, r) := StopVM(s, h, id, cleanupOk, nft);
      if forall v :: v in t.vms ==> v.id != id then (h1, r) == (h, Err(NotFound))
      else exists row ::
        && row in t.vms && row.id == id && OnlyRow(t, h1.tables, row.(state := Stopped)) && Rebuilt(s, h1, nft)
        && r == if nft.nftOk && cleanupOk then Ok(()) else Err(Internal)
  {
    hide Inv, Compile, UpdateVM, OnlyRow, ReplaceVM, Rebuilt;
    NoSuchVM(h.tables, id);
    if GetVM(h.tables, id).Some? {
      var row := GetVM(h.tables, id).value;
      OnlyReplaced(h.tables, row.(state := Stopped));
      var stopping := row.(state := Stopping);
      StateWrite(s, h.tables, row, Stopping);
      var t1 := Put(h.tables, stopping);
      StateWrite(s, t1, stopping, Stopped);
      assert stopping.(state := Stopped) == row.(state := Stopped);
      ReplaceTwice(h.tables.vms, stopping, row.(state := Stopped));
      RebuiltNow(s, h.(tables := Put(t1, row.(state := Stopped))), nft);
    }
  }

  /** The VM's row, its ingress rules and its exec jobs are gone, and nothing else is. */
  ghost predicate Gone(t: Tables, u: Tables, id: Id) {
    && (forall v :: v in u.vms <==> v in t.vms && v.id != id)
    && (forall r :: r in u.ingress <==> r in t.ingress && r.vmId != id)
    && (forall j :: j in u.jobs <==> j in t.jobs && j.vmId != id)
    && u == t.(vms := u.vms, ingress := u.ingress, jobs := u.jobs)
  }

  /** DeleteVM: everything of the VM goes exactly when stopping it succeeded; otherwise it is left stopped. */
  lemma DeleteVMExactly(s: Setup, h: Host, id: Id, cleanupOk: bool, nft: Nft)
    requires Inv(s, h.tables)
    ensures
      var t := h.tables;
      var (h1, r) := DeleteVMCall(s, h, id, cleanupOk, nft);
      if forall v :: v in t.vms ==> v.id != id then (h1, r) == (h, Err(NotFound))
      else if nft.nftOk && cleanupOk then r == Ok(()) && Gone(t, h1.tables, id) && Synced(s, h1)
      else r == Err(Internal) && Rebuilt(s, h1, nft)
           && exists row :: row in t.vms && row.id == id && OnlyRow(t, h1.tables, row.(state := Stopped))
  {
    hide Inv, Compile, StopVM, OnlyRow, DeleteVM;
    StopVMExactly(s, h, id, cleanupOk, nft);
    if nft.nftOk {
      NoSuchVM(h.tables, id);
      if GetVM(h.tables, id).Some? {
        DeleteVMCallSync(s, h, id, cleanupOk, nft);
      }
    }
    var (h1, r) := StopVM(s, h, id, cleanupOk, nft);
    if r.Ok? {
      var row :| row in h.tables.vms && row.id == id && OnlyRow(h.tables, h1.tables, row.(state := Stopped));
      DeletedAfterStop(h.tables, h1.tables, row.(state := Stopped));
    }
  }

  lemma DeletedAfterStop(t: Tables, u: Tables, vm: VM)
    requires OnlyRow(t, u, vm)
    ensures Gone(t, DeleteVM(u, vm.id), vm.id)
  {
    forall v
      ensures v in u.vms && v.id != vm.id <==> v in t.vms && v.id != vm.id
    {
      if v in t.vms && v.id != vm.id {
        var i :| 0 <= i < |t.vms| && t.vms[i] == v;
        assert u.vms[i] == v;
      }
      if v in u.vms && v.id != vm.id {
        var i :| 0 <= i < |u.vms| && u.vms[i] == v;
        assert t.vms[i] == v;
      }
    }
  }

  // ---------------------------------------------------------------------------------------------
  // Reconcile

  /** Exactly the rows of `rows` that were running, starting or stopping and are not alive are stopped. */
  predicate DeadStopped(t: Tables, u: Tables, rows: seq<VM>, alive: set<Id>) {
    && |u.vms| == |t.vms| && u == t.(vms := u.vms)
    && forall i :: 0 <= i < |t.vms| ==>
         var v := t.vms[i];
         var stop := v in rows && (v.state == Running || v.state == Starting || v.state == Stopping) && v.id !in alive;
         u.vms[i] == if stop then v.(state := Stopped) else v
  }

  lemma {:induction false} ReconcileRowsExactly(s: Setup, t: Tables, rows: seq<VM>, alive: set<Id>)
    requires Inv(s, t) && Distinct(rows) && forall v :: v in rows ==> v in t.vms
    ensures DeadStopped(t, ReconcileRows(t, rows, alive).0, rows, alive)
    decreases |rows|
  {
    hide Inv, UpdateVM;
    if rows == [] {
    } else if MaybeRunning(rows[0]) && rows[0].id !in alive {
      var stopped := rows[0].(state := Stopped);
      StateWrite(s, t, rows[0], Stopped);
      var t1 := Put(t, stopped);
      InvDistinct(s, t);
      forall v | v in rows[1..]
        ensures v in t1.vms && v.id != stopped.id
      {
        assert !Clash(rows[0], v);
        ReplaceVMRows(t.vms, stopped);
      }
      ReconcileRowsExactly(s, t1, rows[1..], alive);
      OneMoreStopped(t, ReconcileRows(t1, rows[1..], alive).0, rows, alive);
    } else {
      ReconcileRowsExactly(s, t, rows[1..], alive);
    }
  }

  lemma OneMoreStopped(t: Tables, u: Tables, rows: seq<VM>, alive: set<Id>)
    requires rows != [] && Distinct(t.vms) && forall v :: v in rows ==> v in t.vms
    requires rows[0].state == Running || rows[0].state == Starting || rows[0].state == Stopping
    requires rows[0].id !in alive && forall v :: v in rows[1..] ==> v.id != rows[0].id
    requires DeadStopped(t.(vms := ReplaceVM(t.vms, rows[0].(state := Stopped))), u, rows[1..], alive)
    ensures DeadStopped(t, u, rows, alive)
  {
    forall i | 0 <= i < |t.vms| && t.vms[i].id == rows[0].id
      ensures t.vms[i] == rows[0]
    {
      DistinctRows(t.vms, t.vms[i], rows[0]);
    }
  }

  /** Reconcile stops exactly the rows that were running, starting or stopping and whose process is dead, and rebuilds
      the firewall exactly when there was a row in one of these states. */
  lemma ReconcileExactly(s: Setup, h: Host, alive: set<Id>, nft: Nft)
    requires Inv(s, h.tables)
    ensures
      var t, h1 := h.tables, Reconcile(s, h, alive, nft);
      && DeadStopped(t, h1.tables, t.vms, alive)
      && if exists v :: v in t.vms && (v.state == Running || v.state == Starting || v.state == Stopping)
         then Rebuilt(s, h1, nft) else h1.nft == h.nft
  {
    hide Inv, Compile, ReconcileRows, DeadStopped;
    InvDistinct(s, h.tables);
    ReconcileRowsExactly(s, h.tables, h.tables.vms, alive);
    ReconcileAllKeepsInv(s, h.tables, alive);
    var u := ReconcileRows(h.tables, h.tables.vms, alive).0;
    ApplyRestores(s, h.(tables := u), nft);
    ApplyWreck(s, h.(tables := u), nft);
  }

  // ---------------------------------------------------------------------------------------------
  // Networks

  /** Some registered owner of a range, other than the one of the id, shares an address with c. */
  ghost predicate Meets(t: Tables, c: IPNet, ownId: Id) {
    || (exists n, x: u32 :: n in t.networks && (n.id == "" || n.id != ownId) && Contains(n.cidr, x) && Contains(c, x))
    || (exists v, x: u32 :: v in t.vms && (v.id == "" || v.id != ownId) && RoutedRange(v.net).Some?
                            && Contains(RoutedRange(v.net).value, x) && Contains(c, x))
  }

  lemma MeetsOverlap(t: Tables, c: IPNet, ownId: Id)
    ensures OverlapFound(t.networks, t.vms, c, ownId) <==> Meets(t, c, ownId)
  {
    hide CidrOverlaps, Contains, RoutedRange;
    forall n | n in t.networks
      ensures NetworkMeets(n, c, ownId) <==>
              (n.id == "" || n.id != ownId) && exists x: u32 :: Contains(n.cidr, x) && Contains(c, x)
    {
      OverlapMeansIntersect(c, n.cidr);
    }
    forall v | v in t.vms && RoutedRange(v.net).Some?
      ensures VMMeets(v, c, ownId) <==>
              (v.id == "" || v.id != ownId) && exists x: u32 :: Contains(RoutedRange(v.net).value, x) && Contains(c, x)
    {
      OverlapMeansIntersect(c, RoutedRange(v.net).value);
    }
  }

  /** The start check: a shared VM needs its network, whose CIDR must meet no other owner; a routed VM's block must meet
      no other owner; a VM without a range passes. */
  lemma StartCheckExactly(t: Tables, vm: VM)
    ensures
      var r := EnsureVMNetworkUsable(t, vm);
      if vm.net.mode == Shared && forall n :: n in t.networks ==> n.id != vm.net.networkId then r == Err(NotFound)
      else if vm.net.mode == Shared then exists n ::
        n in t.networks && n.id == vm.net.networkId && r == if Meets(t, n.cidr, n.id) then Err(Conflict) else Ok(())
      else
        var range := RoutedRange(vm.net);
        r == if range.Some? && Meets(t, range.value, vm.id) then Err(Conflict) else Ok(())
  {
    hide OverlapFound, Meets, CidrOverlaps;
    if RoutedRange(vm.net).Some? {
      MeetsOverlap(t, RoutedRange(vm.net).value, vm.id);
    }
    forall n | n in t.networks
      ensures OverlapFound(t.networks, t.vms, n.cidr, n.id) <==> Meets(t, n.cidr, n.id)
    {
      MeetsOverlap(t, n.cidr, n.id);
    }
  }

  /** allocateNetwork: a shared VM needs the id of a network that meets no other owner; then the network's own allocator
      decides. */
  lemma AllocateNetworkExactly(s: Setup, t: Tables, mode: NetworkMode, networkId: Id)
    ensures
      var r := AllocateNetwork(s, t, mode, networkId);
      if mode == Routed then r == AllocateP2P(s.vmCidr, UsedGuestIPs(t), NetworkCidrs(t))
      else if mode != Shared then r == Err(Internal)
      else if networkId == "" then r == Err(Unprocessable)
      else if forall n :: n in t.networks ==> n.id != networkId then r == Err(NotFound)
      else exists n ::
        n in t.networks && n.id == networkId
        && r == if Meets(t, n.cidr, n.id) then Err(Conflict) else AllocateShared(n, UsedGuestIPs(t))
  {
    hide OverlapFound, Meets, CidrOverlaps, AllocateP2P, AllocateShared;
    forall n | n in t.networks
      ensures OverlapFound(t.networks, t.vms, n.cidr, n.id) <==> Meets(t, n.cidr, n.id)
    {
      MeetsOverlap(t, n.cidr, n.id);
    }
  }

  /** The gateway taken when none is given is the address after the first. */
  function GatewayAsked(c: IPNet, gateway: Option<u32>): int {
    if gateway.Some? then gateway.value else First(c) + 1
  }

  /** validateSharedNetwork: the block is the one that holds the address of the text and has its prefix length; it must
      be at most a /30, lie inside vm_cidr, meet nothing registered, and have the gateway strictly inside. */
  lemma ValidateExactly(vmCidr: IPNet, t: Tables, text: CidrText, gateway: Option<u32>, c: IPNet)
    requires text.ones <= 32 && c.ones == text.ones && Contains(c, text.ip)
    ensures
      var r := ValidateSharedNetwork(vmCidr, t, Some(text), gateway);
      if text.ones > 30 || !(forall x: u32 :: Contains(c, x) ==> Contains(vmCidr, x)) then r == Err(Invalid)
      else if Meets(t, c, "") then r == Err(Conflict)
      else if !(First(c) < GatewayAsked(c, gateway) < Last(c)) then r == Err(Invalid)
      else r == Ok((c, GatewayAsked(c, gateway)))
  {
    hide Contains, CidrWithin, OverlapFound, Meets, Add32, ShiftedOne32, MaskedBlock, Low, Pow2;
    TheBlock(text, c);
    WithinMeansInclusion(vmCidr, c);
    MeetsOverlap(t, c, "");
    if text.ones <= 30 {
      SecondAddress(c);
      GatewayTest(c, if gateway.Some? then gateway.value else Add32(c.ip, 1));
    }
  }

  /** The wrapping comparisons of the gateway test leave the addresses strictly inside the block. */
  lemma GatewayTest(c: IPNet, g: u32)
    ensures !Contains(c, g) || g == c.ip || g == Add32(Add32(c.ip, ShiftedOne32(32 - c.ones)), 0xffff_ffff) <==>
            !(First(c) < g < Last(c))
  {
    hide Contains, Add32, ShiftedOne32, Low, Pow2;
    WithinLastAddress(c);
    ContainsIffInRange(c, g);
  }

  lemma SecondAddress(c: IPNet)
    requires c.ones <= 30
    ensures Add32(c.ip, 1) == First(c) + 1
  {
    hide Low, Pow2;
    LastInRange(c);
    FourAddresses(c);
  }

  lemma FourAddresses(c: IPNet)
    requires c.ones <= 30
    ensures Size(c) >= 4
  {
    Pow2Values();
    Pow2Monotone(2, 32 - c.ones);
  }

  lemma TheBlock(text: CidrText, c: IPNet)
    requires text.ones <= 32 && c.ones == text.ones && Contains(c, text.ip)
    ensures MaskedBlock(text.ip, text.ones) == c
  {
    hide Low, Pow2;
    var m := MaskedBlock(text.ip, text.ones);
    ContainsIffInRange(c, text.ip);
    if m.ip < c.ip {
      ClearedGap(m.ip, c.ip, 32 - c.ones);
    } else if c.ip < m.ip {
      ClearedGap(c.ip, m.ip, 32 - c.ones);
    }
  }

  lemma ValidateRefusesText(vmCidr: IPNet, t: Tables, text: Option<CidrText>, gateway: Option<u32>)
    requires text.None? || text.value.ones > 30
    ensures ValidateSharedNetwork(vmCidr, t, text, gateway) == Err(Invalid)
  {
  }

  /** CreateNetwork adds exactly the validated network, first, when its id and name are new. */
  lemma CreateNetworkExactly(s: Setup, t: Tables, nameOk: bool, id: Id, name: string, text: Option<CidrText>,
                             gateway: Option<u32>)
    ensures
      var valid := ValidateSharedNetwork(s.vmCidr, t, text, gateway);
      var (u, r) := CreateNetwork(s, t, nameOk, id, name, text, gateway);
      if !nameOk then (u, r) == (t, Err(Invalid))
      else if valid.Err? then (u, r) == (t, Err(valid.code))
      else if exists n :: n in t.networks && (n.id == id || n.name == name) then (u, r) == (t, Err(Internal))
      else r.Ok? && r.value.id == id && r.value.name == name && (r.value.cidr, r.value.gateway) == valid.value
           && u == t.(networks := [r.value] + t.networks)
  {
    hide ValidateSharedNetwork, OverlapFound, CidrOverlaps, CidrWithin;
    var valid := ValidateSharedNetwork(s.vmCidr, t, text, gateway);
    if valid.Ok? {
      NewCidr(s.vmCidr, t, valid.value.0);
    }
  }

  lemma NewCidr(vmCidr: IPNet, t: Tables, c: IPNet)
    requires !OverlapFound(t.networks, t.vms, c, "")
    ensures forall n :: n in t.networks ==> n.cidr != c
  {
    forall n | n in t.networks
      ensures n.cidr != c
    {
      assert !NetworkMeets(n, c, "");
    }
  }

  /** DeleteNetwork takes exactly the network of that id, unless a VM row names it. */
  lemma DeleteNetworkExactly(t: Tables, id: Id, cleanupOk: bool)
    ensures
      var (u, r) := DeleteNetworkCall(t, id, cleanupOk);
      if forall n :: n in t.networks ==> n.id != id then (u, r) == (t, Err(NotFound))
      else if exists v :: v in t.vms && v.net.networkId == id then (u, r) == (t, Err(Internal))
      else u == t.(networks := u.networks) && (forall n :: n in u.networks <==> n in t.networks && n.id != id)
           && r == if cleanupOk then Ok(()) else Err(Internal)
  {
  }

  // ---------------------------------------------------------------------------------------------
  // Policies and the catalogue

  /** CreateEgressPolicy stores the mode and, for a restricted policy, the lists given; other modes store no list. */
  lemma CreatePolicyExactly(t: Tables, p: EgressPolicy)
    ensures
      var (u, r) := CreateEgressPolicy(t, p);
      if p.mode != AllowAll && p.mode != DenyAll && p.mode != Restricted then (u, r) == (t, Err(Internal))
      else if p.mode == Restricted && p.tcpPorts == [] && p.udpPorts == [] && p.cidrs == []
      then (u, r) == (t, Err(Internal))
      else if exists q :: q in t.policies && (q.id == p.id || q.name == p.name) then (u, r) == (t, Err(Internal))
      else exists q ::
        && r == Ok(()) && u == t.(policies := [q] + t.policies) && q.id == p.id && q.name == p.name && q.mode == p.mode
        && (q.mode == Restricted ==> q.tcpPorts == p.tcpPorts && q.udpPorts == p.udpPorts && q.cidrs == p.cidrs)
        && (q.mode != Restricted ==> q.tcpPorts == [] && q.udpPorts == [] && q.cidrs == [])
  {
  }

  /** Keys and images: what each call adds or takes, and what refuses it. */
  lemma KeysAndImagesExactly(s: Setup, t: Tables, id: Id)
    ensures forall k :: k in RegistryCall(s, t, CallCreateSSHKey(id)).sshKeys <==> k == id || k in t.sshKeys
    ensures forall k :: k in RegistryCall(s, t, CallDeleteSSHKey(id)).sshKeys <==>
                          k in t.sshKeys && (k != id || exists v :: v in t.vms && v.sshKeyId == id)
    ensures forall i :: i in RegistryCall(s, t, CallCreateBaseImage(id)).images <==> i == id || i in t.images
    ensures forall i :: i in RegistryCall(s, t, CallDeleteBaseImage(id)).images <==>
                          i in t.images && (i != id || exists v :: v in t.vms && v.baseImageId == id)
  {
  }

  /** Kernels and their test jobs. */
  lemma KernelsExactly(s: Setup, t: Tables, id: Id, path: string, found: bool)
    ensures var u := RegistryCall(s, t, CallCreateKernel(id, path));
            if id in t.kernels || (exists k :: k in t.kernels && t.kernels[k] == path) then u == t
            else u.kernels.Keys == t.kernels.Keys + {id} && u.kernels[id] == path
                 && forall k :: k in t.kernels ==> u.kernels[k] == t.kernels[k]
    ensures var u := RegistryCall(s, t, CallStartKernelTest(id, found));
            if found && id in t.kernels then u == t.(kernelTests := [id] + t.kernelTests) else u == t
  {
    assert forall k :: k in t.kernels ==> t.kernels[k] in t.kernels.Values;
  }

  lemma DeleteKernelExactly(s: Setup, t: Tables, id: Id)
    ensures var u := RegistryCall(s, t, CallDeleteKernel(id));
            if id in t.kernels && forall v :: v in t.vms ==> v.kernelId != id && v.kernelPath != t.kernels[id]
            then id !in u.kernels && id !in u.kernelTests && forall k :: k in t.kernels && k != id ==> k in u.kernels
            else u == t
  {
  }

  /** An exec job is added exactly for a running VM. */
  lemma ExecJobExactly(s: Setup, t: Tables, jobId: Id, row: VM)
    requires Inv(s, t) && row in t.vms
    ensures var u := RegistryCall(s, t, CallStartExecJob(jobId, row.id));
            if row.state == Running && (forall j :: j in t.jobs ==> j.id != jobId)
            then u == t.(jobs := [JobRow(jobId, row.id)] + t.jobs) else u == t
  {
    hide Inv;
    ThatVM(s, t, row);
  }
}
