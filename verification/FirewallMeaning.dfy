/** What the compiled chains do to packets, for any list of active VMs. */
module FirewallMeaning {
  import opened Cidr
  import opened Model
  import opened Firewall

  // ---------------------------------------------------------------------------------------------
  // The declared policy, with no reference to rules or their order

  predicate InAny(cidrs: seq<IPNet>, ip: u32) {
    exists c :: c in cidrs && Contains(c, ip)
  }

  /** What a VM's egress policy says about a packet to the LAN. */
  function PolicyVerdict(policy: Policy, p: Packet): Verdict {
    match policy.mode
    case DenyAll => Drop
    case Restricted =>
      if (p.protocol == Some(Tcp) && p.dport in policy.tcpPorts)
         || (p.protocol == Some(Udp) && p.dport in policy.udpPorts)
         || InAny(policy.cidrs, p.dst) then Accept else Drop
    case _ => Accept
  }

  function OwnVerdict(cfg: Config, g: Guest, p: Packet): Verdict {
    if InAny(Protected(cfg), p.dst) then Drop else PolicyVerdict(g.policy, p)
  }

  /** A packet of a new connection that enters from a guest's device and leaves by the LAN. */
  predicate Outbound(cfg: Config, p: Packet) {
    p.isNew && p.iif != cfg.lan && p.oif == cfg.lan
  }

  /** The anti-spoofing rule of g's device rejects the packet's source. */
  predicate Spoofed(g: Guest, p: Packet) {
    if g.bridge.None? then p.src != g.guestIP else !Contains(g.bridge.value.cidr, p.src)
  }

  /** The hypotheses about names: guest addresses differ, a device belongs to one VM or to the VMs of one
      bridge, and none is the LAN interface. */
  predicate Separated(cfg: Config, gs: seq<Guest>) {
    && (forall i, j :: 0 <= i < j < |gs| ==> gs[i].guestIP != gs[j].guestIP)
    && (forall i, j :: 0 <= i < j < |gs| && Device(gs[i]) == Device(gs[j]) ==>
          gs[i].bridge.Some? && gs[i].bridge == gs[j].bridge)
    && (forall i :: 0 <= i < |gs| ==> Device(gs[i]) != cfg.lan)
  }

  // ---------------------------------------------------------------------------------------------
  // Chains

  lemma {:induction false} FirstVerdictAppend(a: seq<Rule>, b: seq<Rule>, p: Packet)
    ensures FirstVerdict(a + b, p) == if FirstVerdict(a, p).Some? then FirstVerdict(a, p) else FirstVerdict(b, p)
  {
    if a == [] {
      assert a + b == b;
    } else {
      assert (a + b)[1..] == a[1..] + b;
      FirstVerdictAppend(a[1..], b, p);
    }
  }

  /** When all matching rules agree, their order is irrelevant. */
  lemma {:induction false} UniformVerdict(rules: seq<Rule>, p: Packet, v: Verdict)
    requires forall r :: r in rules && Matches(r, p) ==> r.verdict == v
    ensures FirstVerdict(rules, p) == if exists r :: r in rules && Matches(r, p) then Some(v) else None
  {
    if rules == [] {
    } else if Matches(rules[0], p) {
    } else {
      UniformVerdict(rules[1..], p, v);
      if r :| r in rules && Matches(r, p) {
        assert r in rules[1..];
      }
    }
  }

  lemma ProtectedMeaning(g: Guest, cidrs: seq<IPNet>, p: Packet)
    ensures FirstVerdict(ProtectedRules(g, cidrs), p) ==
            if p.src == g.guestIP && InAny(cidrs, p.dst) then Some(Drop) else None
  {
    var rules := ProtectedRules(g, cidrs);
    UniformVerdict(rules, p, Drop);
    if p.src == g.guestIP && InAny(cidrs, p.dst) {
      var c :| c in cidrs && Contains(c, p.dst);
      var i :| 0 <= i < |cidrs| && cidrs[i] == c;
      assert Matches(rules[i], p);
    }
  }

  lemma PortMeaning(cfg: Config, g: Guest, protocol: Protocol, ports: seq<int>, p: Packet)
    requires Outbound(cfg, p)
    ensures FirstVerdict(PortRules(cfg, g, protocol, ports), p) ==
            if p.src == g.guestIP && p.protocol == Some(protocol) && p.dport in ports then Some(Accept) else None
  {
    var rules := PortRules(cfg, g, protocol, ports);
    UniformVerdict(rules, p, Accept);
    if p.src == g.guestIP && p.protocol == Some(protocol) && p.dport in ports {
      var i :| 0 <= i < |ports| && ports[i] == p.dport;
      assert Matches(rules[i], p);
    }
  }

  lemma CidrMeaning(cfg: Config, g: Guest, cidrs: seq<IPNet>, p: Packet)
    requires Outbound(cfg, p)
    ensures FirstVerdict(CidrRules(cfg, g, cidrs), p) ==
            if p.src == g.guestIP && InAny(cidrs, p.dst) then Some(Accept) else None
  {
    hide Contains;
    var rules := CidrRules(cfg, g, cidrs);
    UniformVerdict(rules, p, Accept);
    if p.src == g.guestIP && InAny(cidrs, p.dst) {
      var c :| c in cidrs && Contains(c, p.dst);
      var i :| 0 <= i < |cidrs| && cidrs[i] == c;
      assert Matches(rules[i], p);
    }
  }

  /** The egress rules of one VM decide exactly its own packets, as its policy says. */
  lemma EgressMeaning(cfg: Config, g: Guest, p: Packet)
    requires Outbound(cfg, p)
    ensures FirstVerdict(EgressRules(cfg, g), p) ==
            if p.src == g.guestIP then Some(PolicyVerdict(g.policy, p)) else None
  {
    if g.policy.mode == Restricted {
      var tcp, udp := PortRules(cfg, g, Tcp, g.policy.tcpPorts), PortRules(cfg, g, Udp, g.policy.udpPorts);
      var nets, last := CidrRules(cfg, g, g.policy.cidrs), [ToLan(cfg, g).(verdict := Drop)];
      PortMeaning(cfg, g, Tcp, g.policy.tcpPorts, p);
      PortMeaning(cfg, g, Udp, g.policy.udpPorts, p);
      CidrMeaning(cfg, g, g.policy.cidrs, p);
      FirstVerdictAppend(tcp + udp + nets, last, p);
      FirstVerdictAppend(tcp + udp, nets, p);
      FirstVerdictAppend(tcp, udp, p);
    }
  }

  predicate GuardFires(g: Guest, seen: set<Id>, p: Packet) {
    p.iif == Device(g) && Spoofed(g, p) && (g.bridge.Some? ==> g.bridge.value.id !in seen)
  }

  lemma LanRulesSilent(cfg: Config, g: Guest, p: Packet)
    requires Outbound(cfg, p)
    ensures FirstVerdict([FromLan(cfg, g, Tcp, 22)], p) == None
    ensures FirstVerdict(IngressRules(cfg, g), p) == None
  {
    UniformVerdict(IngressRules(cfg, g), p, Accept);
  }

  lemma BlockMeaning(cfg: Config, g: Guest, seen: set<Id>, p: Packet)
    requires Outbound(cfg, p)
    ensures FirstVerdict(ForwardBlock(cfg, g, seen), p) ==
            if GuardFires(g, seen, p) then Some(Drop)
            else if p.src == g.guestIP then Some(OwnVerdict(cfg, g, p))
            else None
  {
    var guard, ssh, own := GuardRules(g, seen), [FromLan(cfg, g, Tcp, 22)], ProtectedRules(g, Protected(cfg));
    var ingress, egress := IngressRules(cfg, g), EgressRules(cfg, g);
    FirstVerdictAppend(guard, ssh + (own + (ingress + egress)), p);
    FirstVerdictAppend(ssh, own + (ingress + egress), p);
    FirstVerdictAppend(own, ingress + egress, p);
    FirstVerdictAppend(ingress, egress, p);
    LanRulesSilent(cfg, g, p);
    ProtectedMeaning(g, Protected(cfg), p);
    EgressMeaning(cfg, g, p);
  }

  // ---------------------------------------------------------------------------------------------
  // All blocks

  function Walk(cfg: Config, gs: seq<Guest>, seen: set<Id>, p: Packet): Option<Verdict>
    decreases |gs|
  {
    if gs == [] then None
    else if GuardFires(gs[0], seen, p) then Some(Drop)
    else if p.src == gs[0].guestIP then Some(OwnVerdict(cfg, gs[0], p))
    else Walk(cfg, gs[1..], Seen(gs[0], seen), p)
  }

  lemma {:induction false} ForwardWalk(cfg: Config, tbl: Table, gs: seq<Guest>, seen: set<Id>, p: Packet)
    requires Outbound(cfg, p) && FirstVerdict(tbl.forward, p).None?
    ensures FirstVerdict(Extend(tbl, cfg, gs, seen).forward, p) == Walk(cfg, gs, seen, p)
    decreases |gs|
  {
    if gs == [] {
    } else {
      var next := ExtendOne(tbl, cfg, gs[0], seen);
      FirstVerdictAppend(tbl.forward, ForwardBlock(cfg, gs[0], seen), p);
      BlockMeaning(cfg, gs[0], seen, p);
      if FirstVerdict(next.forward, p).None? {
        ForwardWalk(cfg, next, gs[1..], Seen(gs[0], seen), p);
      } else {
        ForwardKeeps(cfg, next, gs[1..], Seen(gs[0], seen), p);
      }
    }
  }

  /** Later blocks do not change a verdict already given. */
  lemma {:induction false} ForwardKeeps(cfg: Config, tbl: Table, gs: seq<Guest>, seen: set<Id>, p: Packet)
    requires FirstVerdict(tbl.forward, p).Some?
    ensures FirstVerdict(Extend(tbl, cfg, gs, seen).forward, p) == FirstVerdict(tbl.forward, p)
    decreases |gs|
  {
    if gs == [] {
    } else {
      FirstVerdictAppend(tbl.forward, ForwardBlock(cfg, gs[0], seen), p);
      ForwardKeeps(cfg, ExtendOne(tbl, cfg, gs[0], seen), gs[1..], Seen(gs[0], seen), p);
    }
  }

  /** The position of the first VM on the packet's device, and of the first VM with its source address;
      |gs| when there is none. */
  function DeviceIndex(gs: seq<Guest>, p: Packet): (i: nat)
    ensures i <= |gs| && (i < |gs| ==> Device(gs[i]) == p.iif)
    ensures forall k :: 0 <= k < i ==> Device(gs[k]) != p.iif
  {
    if gs == [] || Device(gs[0]) == p.iif then 0 else 1 + DeviceIndex(gs[1..], p)
  }

  function OwnerIndex(gs: seq<Guest>, p: Packet): (i: nat)
    ensures i <= |gs| && (i < |gs| ==> gs[i].guestIP == p.src)
    ensures forall k :: 0 <= k < i ==> gs[k].guestIP != p.src
  {
    if gs == [] || gs[0].guestIP == p.src then 0 else 1 + OwnerIndex(gs[1..], p)
  }

  /** The decision on an outbound packet in terms of VMs: the device's guard if the device's first VM does
      not come after the owner of the source address, else the owner's verdict, else no rule at all. */
  function Decision(cfg: Config, gs: seq<Guest>, p: Packet): Option<Verdict> {
    var i, j := DeviceIndex(gs, p), OwnerIndex(gs, p);
    if i < |gs| && i <= j && Spoofed(gs[i], p) then Some(Drop)
    else if j < |gs| then Some(OwnVerdict(cfg, gs[j], p))
    else None
  }

  lemma {:induction false} WalkUnguarded(cfg: Config, gs: seq<Guest>, seen: set<Id>, p: Packet)
    requires forall k :: 0 <= k < |gs| && Device(gs[k]) == p.iif ==> !Spoofed(gs[k], p)
    ensures var j := OwnerIndex(gs, p);
            Walk(cfg, gs, seen, p) == if j < |gs| then Some(OwnVerdict(cfg, gs[j], p)) else None
    decreases |gs|
  {
    if gs == [] {
    } else {
      WalkUnguarded(cfg, gs[1..], Seen(gs[0], seen), p);
    }
  }

  lemma {:induction false} WalkGuarded(cfg: Config, gs: seq<Guest>, seen: set<Id>, p: Packet)
    requires DeviceIndex(gs, p) < |gs| && Spoofed(gs[DeviceIndex(gs, p)], p)
    requires forall id :: id in seen ==> BridgeName(id) != p.iif
    ensures Walk(cfg, gs, seen, p) ==
            if DeviceIndex(gs, p) <= OwnerIndex(gs, p) then Some(Drop)
            else Some(OwnVerdict(cfg, gs[OwnerIndex(gs, p)], p))
    decreases |gs|
  {
    if Device(gs[0]) == p.iif || gs[0].guestIP == p.src {
    } else {
      WalkGuarded(cfg, gs[1..], Seen(gs[0], seen), p);
    }
  }

  /** The compiled forward chain is the VM-level decision, for any number and order of active VMs. */
  lemma ForwardDecision(cfg: Config, gs: seq<Guest>, p: Packet)
    requires Separated(cfg, gs) && Outbound(cfg, p)
    ensures FirstVerdict(Extend(BASE, cfg, gs, {}).forward, p) == Decision(cfg, gs, p)
  {
    ForwardWalk(cfg, BASE, gs, {}, p);
    var i := DeviceIndex(gs, p);
    if i < |gs| && Spoofed(gs[i], p) {
      WalkGuarded(cfg, gs, {}, p);
    } else {
      WalkUnguarded(cfg, gs, {}, p);
    }
  }

  // ---------------------------------------------------------------------------------------------
  // Consequences

  /** A packet from a VM's own device with the VM's address gets that VM's verdict and no other's. */
  lemma OwnPacketMeaning(cfg: Config, gs: seq<Guest>, k: nat, p: Packet)
    requires Separated(cfg, gs) && Outbound(cfg, p)
    requires k < |gs| && p.iif == Device(gs[k]) && p.src == gs[k].guestIP
    requires gs[k].bridge.Some? ==> Contains(gs[k].bridge.value.cidr, gs[k].guestIP)
    ensures FirstVerdict(Extend(BASE, cfg, gs, {}).forward, p) ==
            Some(if InAny(Protected(cfg), p.dst) then Drop else PolicyVerdict(gs[k].policy, p))
  {
    hide Contains, InAny, Extend, FirstVerdict, PolicyVerdict, BridgeName;
    ForwardDecision(cfg, gs, p);
    assert OwnerIndex(gs, p) == k;
  }

  lemma SpoofedTogether(cfg: Config, gs: seq<Guest>, k: nat, p: Packet)
    requires Separated(cfg, gs) && k < |gs| && Device(gs[k]) == p.iif
    ensures DeviceIndex(gs, p) <= k && Spoofed(gs[DeviceIndex(gs, p)], p) == Spoofed(gs[k], p)
    ensures gs[k].bridge.None? ==> DeviceIndex(gs, p) == k
  {
    hide Contains, BridgeName;
  }

  /** A packet from a VM's device with an address of no active VM is dropped exactly when the device is a TAP or the
      address is outside the bridge's network. */
  lemma UnknownSourceDropped(cfg: Config, gs: seq<Guest>, k: nat, p: Packet)
    requires Separated(cfg, gs) && Outbound(cfg, p)
    requires k < |gs| && p.iif == Device(gs[k])
    requires forall j :: 0 <= j < |gs| ==> gs[j].guestIP != p.src
    ensures ChainVerdict(Extend(BASE, cfg, gs, {}).forward, p) == Drop <==>
            gs[k].bridge.None? || !Contains(gs[k].bridge.value.cidr, p.src)
  {
    hide Contains, Extend, FirstVerdict, BridgeName, Separated;
    ForwardDecision(cfg, gs, p);
    SpoofedTogether(cfg, gs, k, p);
  }

  /** A packet from a VM's device with an active VM's address is dropped exactly when the device's guard rejects the
      address and does not come after that VM's block, or that VM's own verdict is a drop: egress rules look at the
      source address only. */
  lemma ForeignSourceDropped(cfg: Config, gs: seq<Guest>, k: nat, j: nat, p: Packet)
    requires Separated(cfg, gs) && Outbound(cfg, p)
    requires k < |gs| && j < |gs| && p.iif == Device(gs[k]) && p.src == gs[j].guestIP
    ensures ChainVerdict(Extend(BASE, cfg, gs, {}).forward, p) == Drop <==>
            (Spoofed(gs[k], p) && DeviceIndex(gs, p) <= j) || OwnVerdict(cfg, gs[j], p) == Drop
    ensures gs[k].bridge.None? ==> DeviceIndex(gs, p) == k
  {
    hide Contains, Extend, FirstVerdict, BridgeName, OwnVerdict;
    ForwardDecision(cfg, gs, p);
    SpoofedTogether(cfg, gs, k, p);
    assert OwnerIndex(gs, p) == j;
  }

  /** The guard does not hold every packet with a foreign source: two routed allow_all VMs are enough. */
  lemma ForeignSourceExample() returns (cfg: Config, gs: seq<Guest>, p: Packet)
    ensures Separated(cfg, gs) && Outbound(cfg, p) && |gs| == 2 && p.iif == gs[1].tapName && p.src != gs[1].guestIP
    ensures gs[1].bridge.None? && ChainVerdict(Extend(BASE, cfg, gs, {}).forward, p) == Accept
  {
    hide Contains, Extend, ChainVerdict;
    cfg := Config("eth0", 18080, [Block(0, 32)]);
    var any := Policy(AllowAll, [], [], []);
    var a := Guest("tap-a", 1, 2, 20000, None, [], any);
    var b := Guest("tap-b", 5, 6, 20001, None, [], any);
    gs := [a, b];
    p := Packet("tap-b", "eth0", 2, 9, Some(Tcp), 80, true);
    assert "tap-a"[4] != "tap-b"[4];
    assert "tap-a"[0] != "eth0"[0] && "tap-b"[0] != "eth0"[0];
    ContainsIffInRange(Block(0, 32), 9);
    assert Protected(cfg) == [Block(0, 32)];
    ForeignSourceDropped(cfg, gs, 1, 0, p);
  }

  /** On a bridge, one deny_all VM that takes a free address of its own network is enough. */
  lemma BridgeSourceExample() returns (cfg: Config, gs: seq<Guest>, p: Packet)
    ensures Separated(cfg, gs) && Outbound(cfg, p) && |gs| == 1 && p.iif == Device(gs[0]) && p.src != gs[0].guestIP
    ensures gs[0].policy.mode == DenyAll && ChainVerdict(Extend(BASE, cfg, gs, {}).forward, p) == Accept
  {
    hide Contains, Extend, ChainVerdict, Lower;
    cfg := Config("eth0", 18080, [HostNet(0)]);
    var n := Network("n", "net", MaskedBlock(0x0a00_0003, 24), 0x0a00_0001);
    var g := Guest("tap-a", 0x0a00_0001, 0x0a00_0002, 20000, Some(n), [], Policy(DenyAll, [], [], []));
    gs := [g];
    p := Packet(Device(g), "eth0", 0x0a00_0003, 9, Some(Tcp), 80, true);
    BridgeIsNotLan("n");
    ContainsIffInRange(n.cidr, p.src);
    UnknownSourceDropped(cfg, gs, 0, p);
  }

  function HostNet(ip: u32): (n: IPNet)
    ensures n == Block(ip, 32)
  {
    Block(ip, 32)
  }

  lemma BridgeIsNotLan(id: Id)
    ensures BridgeName(id) != "eth0"
  {
    assert BridgeName(id)[0] == 'b' && "eth0"[0] == 'e';
  }

  // ---------------------------------------------------------------------------------------------
  // From the LAN

  /** A packet of a new connection from the LAN whose source is no active VM's address. */
  predicate Inbound(cfg: Config, gs: seq<Guest>, p: Packet) {
    p.isNew && p.iif == cfg.lan && forall j :: 0 <= j < |gs| ==> gs[j].guestIP != p.src
  }

  lemma InboundBlock(cfg: Config, g: Guest, seen: set<Id>, p: Packet)
    requires p.isNew && p.iif == cfg.lan && p.src != g.guestIP && Device(g) != cfg.lan
    ensures forall r :: r in ForwardBlock(cfg, g, seen) && Matches(r, p) ==> r.verdict == Accept
  {
    hide Contains, InAny, BridgeName;
    assert forall r :: r in GuardRules(g, seen) ==> !Matches(r, p);
    assert forall r :: r in ProtectedRules(g, Protected(cfg)) ==> !Matches(r, p);
    EgressNeedsSource(cfg, g, p);
  }

  lemma EgressNeedsSource(cfg: Config, g: Guest, p: Packet)
    requires p.src != g.guestIP
    ensures forall r :: r in EgressRules(cfg, g) ==> !Matches(r, p)
  {
    assert forall r :: r in EgressRules(cfg, g) ==> r.src == SrcIs(g.guestIP);
  }

  /** No rule drops an inbound packet, and an accept rule stays in force whatever follows it. */
  lemma {:induction false} InboundAccepted(cfg: Config, tbl: Table, gs: seq<Guest>, seen: set<Id>,
                                 k: nat, rule: Rule, p: Packet)
    requires Inbound(cfg, gs, p) && forall j :: 0 <= j < |gs| ==> Device(gs[j]) != cfg.lan
    requires FirstVerdict(tbl.forward, p) != Some(Drop)
    requires k < |gs| && Matches(rule, p) && (forall s :: rule in ForwardBlock(cfg, gs[k], s))
    ensures FirstVerdict(Extend(tbl, cfg, gs, seen).forward, p) == Some(Accept)
    decreases |gs|
  {
    hide Contains, Matches, ForwardBlock, BridgeName;
    var block := ForwardBlock(cfg, gs[0], seen);
    var next := ExtendOne(tbl, cfg, gs[0], seen);
    FirstVerdictAppend(tbl.forward, block, p);
    InboundBlock(cfg, gs[0], seen, p);
    UniformVerdict(block, p, Accept);
    assert k == 0 ==> rule in block;
    assert FirstVerdict(next.forward, p) != Some(Drop);
    if FirstVerdict(next.forward, p).Some? {
      assert FirstVerdict(next.forward, p).value.Accept?;
      ForwardKeeps(cfg, next, gs[1..], Seen(gs[0], seen), p);
    } else {
      assert k != 0;
      InboundAccepted(cfg, next, gs[1..], Seen(gs[0], seen), k - 1, rule, p);
    }
  }

  // ---------------------------------------------------------------------------------------------
  // Published ports

  /** A host port published for a VM. */
  datatype Mapping = Mapping(protocol: Protocol, hostPort: int, guestPort: int)

  predicate Publishes(g: Guest, m: Mapping) {
    m == Mapping(Tcp, g.sshPort, 22)
    || exists r :: r in g.ingress && m == Mapping(r.protocol, r.hostPort, r.guestPort)
  }

  /** No host port is published twice. */
  ghost predicate PortsApart(gs: seq<Guest>) {
    forall k, l, m, n | 0 <= k < |gs| && 0 <= l < |gs| && Publishes(gs[k], m) && Publishes(gs[l], n) ::
      m.hostPort == n.hostPort ==> k == l && m == n
  }

  function NatRuleOf(cfg: Config, g: Guest, m: Mapping): NatRule {
    NatRule(cfg.lan, m.protocol, m.hostPort, g.guestIP, m.guestPort)
  }

  lemma NatBlockRules(cfg: Config, g: Guest, r: NatRule)
    ensures r in NatBlock(cfg, g) <==>
            Publishes(g, Mapping(r.protocol, r.dport, r.toPort)) && r.iif == cfg.lan && r.toIP == g.guestIP
  {
    var m := Mapping(r.protocol, r.dport, r.toPort);
    var block := NatBlock(cfg, g);
    if r in block {
      var i :| 0 <= i < |block| && block[i] == r;
      if i > 0 {
        assert g.ingress[i - 1] in g.ingress;
      }
    }
    if Publishes(g, m) && m != Mapping(Tcp, g.sshPort, 22) {
      var x :| x in g.ingress && m == Mapping(x.protocol, x.hostPort, x.guestPort);
      var i :| 0 <= i < |g.ingress| && g.ingress[i] == x;
      assert block[i + 1] == NatRule(cfg.lan, x.protocol, x.hostPort, g.guestIP, x.guestPort);
    }
  }

  lemma {:induction false} PreroutingRules(cfg: Config, tbl: Table, gs: seq<Guest>, seen: set<Id>, r: NatRule)
    ensures r in Extend(tbl, cfg, gs, seen).prerouting <==>
            r in tbl.prerouting || exists k :: 0 <= k < |gs| && r in NatBlock(cfg, gs[k])
    decreases |gs|
  {
    if gs == [] {
    } else {
      PreroutingRules(cfg, ExtendOne(tbl, cfg, gs[0], seen), gs[1..], Seen(gs[0], seen), r);
      if k :| 0 <= k < |gs| && r in NatBlock(cfg, gs[k]) {
        assert k > 0 ==> gs[k] == gs[1..][k - 1];
      }
    }
  }

  /** When all matching rules rewrite alike, their order is irrelevant. */
  lemma {:induction false} UniformRewrite(rules: seq<NatRule>, p: Packet, r: NatRule)
    requires r in rules && NatMatches(r, p) && forall s :: s in rules && NatMatches(s, p) ==> s == r
    ensures Rewrite(rules, p) == Some((r.toIP, r.toPort))
  {
    if rules[0] == r {
    } else {
      UniformRewrite(rules[1..], p, r);
    }
  }

  lemma {:induction false} NoRewrite(rules: seq<NatRule>, p: Packet)
    requires forall s :: s in rules ==> !NatMatches(s, p)
    ensures Rewrite(rules, p) == None
  {
    if rules == [] {
    } else {
      assert rules[0] in rules;
      NoRewrite(rules[1..], p);
    }
  }

  /** A LAN packet to a published port goes to exactly that VM and port. */
  lemma PublishedPortRewritten(cfg: Config, gs: seq<Guest>, k: nat, m: Mapping, p: Packet)
    requires PortsApart(gs) && k < |gs| && Publishes(gs[k], m)
    requires p.iif == cfg.lan && p.protocol == Some(m.protocol) && p.dport == m.hostPort
    ensures Rewrite(Extend(BASE, cfg, gs, {}).prerouting, p) == Some((gs[k].guestIP, m.guestPort))
  {
    var rules, r := Extend(BASE, cfg, gs, {}).prerouting, NatRuleOf(cfg, gs[k], m);
    NatBlockRules(cfg, gs[k], r);
    PreroutingRules(cfg, BASE, gs, {}, r);
    forall s | s in rules && NatMatches(s, p)
      ensures s == r
    {
      PreroutingRules(cfg, BASE, gs, {}, s);
      var l :| 0 <= l < |gs| && s in NatBlock(cfg, gs[l]);
      NatBlockRules(cfg, gs[l], s);
      assert Publishes(gs[l], Mapping(s.protocol, s.dport, s.toPort));
    }
    UniformRewrite(rules, p, r);
  }

  /** A packet to a port that no active VM publishes keeps its destination. */
  lemma UnpublishedPortKept(cfg: Config, gs: seq<Guest>, p: Packet)
    requires p.iif != cfg.lan || forall k, m :: 0 <= k < |gs| && Publishes(gs[k], m) ==>
                                                p.protocol != Some(m.protocol) || p.dport != m.hostPort
    ensures Rewrite(Extend(BASE, cfg, gs, {}).prerouting, p) == None
  {
    var rules := Extend(BASE, cfg, gs, {}).prerouting;
    forall s | s in rules
      ensures !NatMatches(s, p)
    {
      PreroutingRules(cfg, BASE, gs, {}, s);
      var l :| 0 <= l < |gs| && s in NatBlock(cfg, gs[l]);
      NatBlockRules(cfg, gs[l], s);
      assert Publishes(gs[l], Mapping(s.protocol, s.dport, s.toPort));
    }
    NoRewrite(rules, p);
  }

  /** The rewritten packet is accepted by a rule, not merely by the chain's policy. */
  lemma PublishedPortAccepted(cfg: Config, gs: seq<Guest>, k: nat, m: Mapping, p: Packet)
    requires Separated(cfg, gs) && Inbound(cfg, gs, p)
    requires k < |gs| && Publishes(gs[k], m)
    requires p.oif == Device(gs[k]) && p.dst == gs[k].guestIP
    requires p.protocol == Some(m.protocol) && p.dport == m.guestPort
    ensures FirstVerdict(Extend(BASE, cfg, gs, {}).forward, p) == Some(Accept)
  {
    var g := gs[k];
    var rule := FromLan(cfg, g, m.protocol, m.guestPort);
    forall s
      ensures rule in ForwardBlock(cfg, g, s)
    {
      FromLanInBlock(cfg, g, m, s);
    }
    InboundAccepted(cfg, BASE, gs, {}, k, rule, p);
  }

  lemma FromLanInBlock(cfg: Config, g: Guest, m: Mapping, seen: set<Id>)
    requires Publishes(g, m)
    ensures FromLan(cfg, g, m.protocol, m.guestPort) in ForwardBlock(cfg, g, seen)
  {
    var rule := FromLan(cfg, g, m.protocol, m.guestPort);
    if m != Mapping(Tcp, g.sshPort, 22) {
      var x :| x in g.ingress && m == Mapping(x.protocol, x.hostPort, x.guestPort);
      var i :| 0 <= i < |g.ingress| && g.ingress[i] == x;
      assert IngressRules(cfg, g)[i] == rule;
      assert rule in IngressRules(cfg, g);
    } else {
      assert rule in [FromLan(cfg, g, Tcp, 22)];
    }
  }

  /** The input chain holds one rule per active VM. */
  lemma {:induction false} InputCount(cfg: Config, tbl: Table, gs: seq<Guest>, seen: set<Id>)
    ensures |Extend(tbl, cfg, gs, seen).input| == |tbl.input| + |gs|
    decreases |gs|
  {
    if gs == [] {
    } else {
      InputCount(cfg, ExtendOne(tbl, cfg, gs[0], seen), gs[1..], Seen(gs[0], seen));
    }
  }
}
