/** The nftables compiler of internal/lifecycle/service.go (applyNFT, egressNFTRules): the registry becomes
    ordered chains of rules. A chain is read by first match; its policy is accept. */
module Firewall {
  import opened Cidr
  import opened Model
  import opened Database

  datatype Config = Config(lan: string, metadataPort: int, protectedCidrs: seq<IPNet>)

  /** ProtectedHostCIDRs, or the built-in pair when none is configured. */
  function Protected(cfg: Config): seq<IPNet> {
    if cfg.protectedCidrs == [] then [MaskedBlock(0x7f00_0000, 8), MaskedBlock(0xa9fe_a9fe, 32)]
    else cfg.protectedCidrs
  }

  // ---------------------------------------------------------------------------------------------
  // Packets, rules and chains

  /** `protocol` is None for anything but TCP and UDP; `isNew` is false in an established or related
      connection. */
  datatype Packet = Packet(
    iif: string, oif: string, src: u32, dst: u32, protocol: Option<Protocol>, dport: int, isNew: bool)

  datatype SrcMatch = AnySrc | SrcIs(ip: u32) | SrcIsNot(ip: u32) | SrcOutside(net: IPNet)
  datatype DstMatch = AnyDst | DstIs(ip: u32) | DstIn(net: IPNet)
  datatype PortMatch = AnyPort | PortIs(protocol: Protocol, dport: int)
  datatype Verdict = Accept | Drop

  datatype Rule = Rule(
    established: bool, iif: Option<string>, oif: Option<string>, src: SrcMatch, dst: DstMatch, port: PortMatch,
    verdict: Verdict)

  predicate Matches(r: Rule, p: Packet) {
    (r.established ==> !p.isNew)
    && (r.iif.Some? ==> p.iif == r.iif.value)
    && (r.oif.Some? ==> p.oif == r.oif.value)
    && (match r.src
        case AnySrc => true
        case SrcIs(ip) => p.src == ip
        case SrcIsNot(ip) => p.src != ip
        case SrcOutside(net) => !Contains(net, p.src))
    && (match r.dst
        case AnyDst => true
        case DstIs(ip) => p.dst == ip
        case DstIn(net) => Contains(net, p.dst))
    && (r.port.PortIs? ==> p.protocol == Some(r.port.protocol) && p.dport == r.port.dport)
  }

  /** The verdict of the first matching rule; None leaves the packet to the chain's accept policy. */
  function FirstVerdict(rules: seq<Rule>, p: Packet): Option<Verdict> {
    if rules == [] then None
    else if Matches(rules[0], p) then Some(rules[0].verdict)
    else FirstVerdict(rules[1..], p)
  }

  function ChainVerdict(rules: seq<Rule>, p: Packet): Verdict {
    match FirstVerdict(rules, p)
    case Some(v) => v
    case None => Accept
  }

  datatype NatRule = NatRule(iif: string, protocol: Protocol, dport: int, toIP: u32, toPort: int)

  predicate NatMatches(r: NatRule, p: Packet) {
    p.iif == r.iif && p.protocol == Some(r.protocol) && p.dport == r.dport
  }

  /** Prerouting: the first matching rule gives the new destination. */
  function Rewrite(rules: seq<NatRule>, p: Packet): Option<(u32, int)> {
    if rules == [] then None
    else if NatMatches(rules[0], p) then Some((rules[0].toIP, rules[0].toPort))
    else Rewrite(rules[1..], p)
  }

  datatype Masquerade = Masquerade(src: u32, oif: string)

  datatype Table = Table(
    input: seq<Rule>, prerouting: seq<NatRule>, postrouting: seq<Masquerade>, forward: seq<Rule>)

  // ---------------------------------------------------------------------------------------------
  // What one active VM contributes

  datatype Policy = Policy(mode: EgressMode, tcpPorts: seq<int>, udpPorts: seq<int>, cidrs: seq<IPNet>)

  /** An active VM with everything applyNFT looks up for it. */
  datatype Guest = Guest(
    tapName: string, hostIP: u32, guestIP: u32, sshPort: int, bridge: Option<Network>,
    ingress: seq<IngressRule>, policy: Policy)

  function Lower(s: string): (r: string)
    ensures |r| == |s|
  {
    seq(|s|, i requires 0 <= i < |s| => if 'A' <= s[i] <= 'Z' then s[i] + ('a' - 'A') else s[i])
  }

  /** Interface names are cut to 15 characters, so different networks may share one. */
  function BridgeName(id: Id): string {
    var name := "br-bap-" + Lower(id);
    if |name| > 15 then name[..15] else name
  }

  function Device(g: Guest): string {
    if g.bridge.Some? then BridgeName(g.bridge.value.id) else g.tapName
  }

  const ANY := Rule(false, None, None, AnySrc, AnyDst, AnyPort, Accept)

  /** The anti-spoofing rule: per TAP for a routed VM, once per bridge for shared ones. */
  function GuardRules(g: Guest, seen: set<Id>): seq<Rule> {
    if g.bridge.None? then
      [ANY.(iif := Some(g.tapName), src := SrcIsNot(g.guestIP), verdict := Drop)]
    else if g.bridge.value.id !in seen then
      [ANY.(iif := Some(Device(g)), src := SrcOutside(g.bridge.value.cidr), verdict := Drop)]
    else []
  }

  function InputRule(cfg: Config, g: Guest): Rule {
    ANY.(iif := Some(Device(g)), src := SrcIs(g.guestIP), dst := DstIs(g.hostIP), port := PortIs(Tcp, cfg.metadataPort))
  }

  function FromLan(cfg: Config, g: Guest, protocol: Protocol, port: int): Rule {
    ANY.(iif := Some(cfg.lan), oif := Some(Device(g)), dst := DstIs(g.guestIP), port := PortIs(protocol, port))
  }

  function ToLan(cfg: Config, g: Guest): Rule {
    ANY.(src := SrcIs(g.guestIP), oif := Some(cfg.lan))
  }

  function ProtectedRules(g: Guest, cidrs: seq<IPNet>): (r: seq<Rule>)
    ensures |r| == |cidrs|
    ensures forall i :: 0 <= i < |cidrs| ==>
              r[i] == ANY.(src := SrcIs(g.guestIP), dst := DstIn(cidrs[i]), verdict := Drop)
  {
    seq(|cidrs|, i requires 0 <= i < |cidrs| => ANY.(src := SrcIs(g.guestIP), dst := DstIn(cidrs[i]), verdict := Drop))
  }

  function IngressRules(cfg: Config, g: Guest): (r: seq<Rule>)
    ensures |r| == |g.ingress|
    ensures forall i :: 0 <= i < |r| ==> r[i] == FromLan(cfg, g, g.ingress[i].protocol, g.ingress[i].guestPort)
  {
    seq(|g.ingress|, i requires 0 <= i < |g.ingress| => FromLan(cfg, g, g.ingress[i].protocol, g.ingress[i].guestPort))
  }

  function PortRules(cfg: Config, g: Guest, protocol: Protocol, ports: seq<int>): (r: seq<Rule>)
    ensures |r| == |ports|
    ensures forall i :: 0 <= i < |r| ==> r[i] == ToLan(cfg, g).(port := PortIs(protocol, ports[i]))
  {
    seq(|ports|, i requires 0 <= i < |ports| => ToLan(cfg, g).(port := PortIs(protocol, ports[i])))
  }

  function CidrRules(cfg: Config, g: Guest, cidrs: seq<IPNet>): (r: seq<Rule>)
    ensures |r| == |cidrs|
    ensures forall i :: 0 <= i < |r| ==> r[i] == ToLan(cfg, g).(dst := DstIn(cidrs[i]))
  {
    seq(|cidrs|, i requires 0 <= i < |cidrs| => ToLan(cfg, g).(dst := DstIn(cidrs[i])))
  }

  /** egressNFTRules after the policy lookup; Resolve has ruled out any other mode. */
  function EgressRules(cfg: Config, g: Guest): seq<Rule> {
    match g.policy.mode
    case DenyAll => [ToLan(cfg, g).(verdict := Drop)]
    case Restricted =>
      PortRules(cfg, g, Tcp, g.policy.tcpPorts) + PortRules(cfg, g, Udp, g.policy.udpPorts)
      + CidrRules(cfg, g, g.policy.cidrs) + [ToLan(cfg, g).(verdict := Drop)]
    case _ => [ToLan(cfg, g)]
  }

  function ForwardBlock(cfg: Config, g: Guest, seen: set<Id>): seq<Rule> {
    GuardRules(g, seen) + ([FromLan(cfg, g, Tcp, 22)] + (ProtectedRules(g, Protected(cfg))
    + (IngressRules(cfg, g) + EgressRules(cfg, g))))
  }

  function NatBlock(cfg: Config, g: Guest): seq<NatRule> {
    [NatRule(cfg.lan, Tcp, g.sshPort, g.guestIP, 22)]
    + seq(|g.ingress|, i requires 0 <= i < |g.ingress| =>
          NatRule(cfg.lan, g.ingress[i].protocol, g.ingress[i].hostPort, g.guestIP, g.ingress[i].guestPort))
  }

  function Seen(g: Guest, seen: set<Id>): set<Id> {
    if g.bridge.Some? then seen + {g.bridge.value.id} else seen
  }

  // ---------------------------------------------------------------------------------------------
  // The whole table

  const ESTABLISHED := ANY.(established := true)

  const BASE := Table([], [], [], [ESTABLISHED])

  function ExtendOne(tbl: Table, cfg: Config, g: Guest, seen: set<Id>): Table {
    Table(tbl.input + [InputRule(cfg, g)], tbl.prerouting + NatBlock(cfg, g),
          tbl.postrouting + [Masquerade(g.guestIP, cfg.lan)], tbl.forward + ForwardBlock(cfg, g, seen))
  }

  /** The table after the blocks of `guests`, in order, when the bridges `seen` have their guard rule. */
  function Extend(tbl: Table, cfg: Config, guests: seq<Guest>, seen: set<Id>): Table
    decreases |guests|
  {
    if guests == [] then tbl
    else Extend(ExtendOne(tbl, cfg, guests[0], seen), cfg, guests[1..], Seen(guests[0], seen))
  }

  /** The lookups of one loop iteration: None where applyNFT returns an error. */
  function Resolve(t: Tables, v: VM): Option<Guest> {
    if v.net.hostIP.None? then None
    else if v.net.mode == Shared && GetNetwork(t, v.net.networkId).None? then None
    else
      var policy :=
        if v.egressPolicyId == "" then Some(Policy(v.egressMode, [], [], []))
        else match GetEgressPolicy(t, v.egressPolicyId)
          case None => None
          case Some(p) => Some(Policy(p.mode, p.tcpPorts, p.udpPorts, p.cidrs));
      if policy.None? || policy.value.mode == OtherEgress then None
      else Some(Guest(v.tapName, v.net.hostIP.value, v.net.guestIP, v.sshPort,
                      if v.net.mode == Shared then GetNetwork(t, v.net.networkId) else None,
                      ListIngressRules(t, v.id), policy.value))
  }

  function ResolveAll(t: Tables, vms: seq<VM>): Option<seq<Guest>> {
    if vms == [] then Some([])
    else if !IsActive(vms[0]) then ResolveAll(t, vms[1..])
    else match Resolve(t, vms[0])
      case None => None
      case Some(g) =>
        match ResolveAll(t, vms[1..])
        case None => None
        case Some(gs) => Some([g] + gs)
  }

  /** The table a successful applyNFT installs; None when one of its lookups fails. */
  function Compile(cfg: Config, t: Tables): Option<Table> {
    match ResolveAll(t, t.vms)
    case None => None
    case Some(gs) => Some(Extend(BASE, cfg, gs, {}))
  }
}
