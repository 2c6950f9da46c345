/** End to end: what the installed table does to packets after any clean run of calls. */
module Enforcement {
  import opened Cidr
  import opened Model
  import opened Database
  import opened Firewall
  import opened FirewallMeaning
  import opened OtherChains
  import opened Lifecycle
  import opened Invariants
  import opened Sync

  function DeviceOf(v: VM): string {
    if v.net.mode == Shared then BridgeName(v.net.networkId) else v.tapName
  }

  /** The hypotheses about interface names: cutting bridge names to 15 characters keeps them apart, and no
      TAP or bridge of an active VM is another's bridge or the LAN interface. */
  predicate NamesApart(s: Setup, t: Tables) {
    && (forall v, w | v in t.vms && w in t.vms && IsActive(v) && IsActive(w) && w.net.mode == Shared ::
          DeviceOf(v) == DeviceOf(w) ==> v.net.mode == Shared && v.net.networkId == w.net.networkId)
    && (forall v :: v in t.vms && IsActive(v) ==> DeviceOf(v) != s.fw.lan)
  }

  function Guests(t: Tables): seq<Guest>
    requires ResolveAll(t, t.vms).Some?
  {
    ResolveAll(t, t.vms).value
  }

  predicate GuestFor(t: Tables, v: VM, g: Guest) {
    v in t.vms && IsActive(v) && Resolve(t, v) == Some(g)
  }

  lemma {:induction false} ResolvedMembers(t: Tables, vms: seq<VM>, g: Guest)
    requires ResolveAll(t, vms).Some?
    ensures g in ResolveAll(t, vms).value <==> exists v :: v in vms && IsActive(v) && Resolve(t, v) == Some(g)
  {
    hide Resolve;
    if vms == [] {
    } else {
      ResolvedMembers(t, vms[1..], g);
    }
  }

  lemma ResolvedColumns(t: Tables, v: VM, g: Guest)
    requires Resolve(t, v) == Some(g)
    ensures g.guestIP == v.net.guestIP && g.sshPort == v.sshPort && g.ingress == ListIngressRules(t, v.id)
    ensures Device(g) == DeviceOf(v) && (g.bridge.Some? <==> v.net.mode == Shared)
    ensures g.bridge.Some? ==> g.bridge == GetNetwork(t, v.net.networkId)
  {
  }

  lemma {:induction false} ResolvedDistinct(t: Tables, vms: seq<VM>)
    requires Distinct(vms) && ResolveAll(t, vms).Some?
    ensures var gs := ResolveAll(t, vms).value; forall i, j :: 0 <= i < j < |gs| ==> gs[i].guestIP != gs[j].guestIP
  {
    hide Resolve;
    if vms == [] {
    } else {
      ResolvedDistinct(t, vms[1..]);
      if IsActive(vms[0]) {
        var g, rest := Resolve(t, vms[0]).value, ResolveAll(t, vms[1..]).value;
        forall j | 0 <= j < |rest|
          ensures g.guestIP != rest[j].guestIP
        {
          ResolvedMembers(t, vms[1..], rest[j]);
          var w :| w in vms[1..] && IsActive(w) && Resolve(t, w) == Some(rest[j]);
          ResolvedColumns(t, vms[0], g);
          ResolvedColumns(t, w, rest[j]);
          assert !Clash(vms[0], w);
        }
      }
    }
  }

  /** The row behind the k-th guest. */
  lemma RowOf(t: Tables, k: nat) returns (v: VM)
    requires ResolveAll(t, t.vms).Some? && k < |Guests(t)|
    ensures GuestFor(t, v, Guests(t)[k])
    ensures Guests(t)[k].guestIP == v.net.guestIP && Guests(t)[k].sshPort == v.sshPort
    ensures Guests(t)[k].ingress == ListIngressRules(t, v.id)
    ensures Device(Guests(t)[k]) == DeviceOf(v) && (Guests(t)[k].bridge.Some? <==> v.net.mode == Shared)
    ensures Guests(t)[k].bridge.Some? ==> Guests(t)[k].bridge == GetNetwork(t, v.net.networkId)
  {
    hide Resolve;
    ResolvedMembers(t, t.vms, Guests(t)[k]);
    v :| v in t.vms && IsActive(v) && Resolve(t, v) == Some(Guests(t)[k]);
    ResolvedColumns(t, v, Guests(t)[k]);
  }

  lemma GuestOf(s: Setup, t: Tables, v: VM) returns (k: nat)
    requires Inv(s, t) && v in t.vms && IsActive(v)
    ensures ResolveAll(t, t.vms).Some? && k < |Guests(t)| && GuestFor(t, v, Guests(t)[k])
  {
    hide Inv, Resolve;
    ResolveAllFinds(s, t, t.vms);
    ResolveFinds(s, t, v);
    ResolvedMembers(t, t.vms, Resolve(t, v).value);
    k :| 0 <= k < |Guests(t)| && Guests(t)[k] == Resolve(t, v).value;
  }

  lemma GuestsSeparated(s: Setup, t: Tables)
    requires Inv(s, t) && NamesApart(s, t)
    ensures ResolveAll(t, t.vms).Some? && Separated(s.fw, Guests(t))
  {
    hide Inv, Resolve, ResolveAll, ListIngressRules, BridgeName;
    ResolveAllFinds(s, t, t.vms);
    InvDistinct(s, t);
    ResolvedDistinct(t, t.vms);
    var gs := Guests(t);
    forall i, j | 0 <= i < j < |gs| && Device(gs[i]) == Device(gs[j])
      ensures gs[i].bridge.Some? && gs[i].bridge == gs[j].bridge
    {
      var v := RowOf(t, i);
      var w := RowOf(t, j);
      if v.net.mode != Shared && w.net.mode != Shared {
        DistinctRows(t.vms, v, w);
      }
    }
    forall i | 0 <= i < |gs|
      ensures Device(gs[i]) != s.fw.lan
    {
      var v := RowOf(t, i);
    }
  }

  lemma PublishedBy(t: Tables, k: nat, m: Mapping) returns (v: VM)
    requires ResolveAll(t, t.vms).Some? && k < |Guests(t)| && Publishes(Guests(t)[k], m)
    ensures GuestFor(t, v, Guests(t)[k]) && RowPublishes(t, v, m) && Guests(t)[k].guestIP == v.net.guestIP
  {
    hide Resolve, ResolveAll;
    v := RowOf(t, k);
  }

  /** The host ports that rows publish: the SSH port and the ingress rules. */
  predicate RowPublishes(t: Tables, v: VM, m: Mapping) {
    m == Mapping(Tcp, v.sshPort, 22)
    || exists r :: r in t.ingress && r.vmId == v.id && m == Mapping(r.protocol, r.hostPort, r.guestPort)
  }

  lemma RowPortsApart(s: Setup, t: Tables, v: VM, m: Mapping, w: VM, n: Mapping)
    requires Inv(s, t) && v in t.vms && w in t.vms && RowPublishes(t, v, m) && RowPublishes(t, w, n)
    requires m.hostPort == n.hostPort
    ensures v == w && m == n
  {
    hide VMPlaced, NetworkPlaced, NetworksApart, RefPlan;
    if m == Mapping(Tcp, v.sshPort, 22) && n == Mapping(Tcp, w.sshPort, 22) {
      DistinctRows(t.vms, v, w);
    } else if m == Mapping(Tcp, v.sshPort, 22) || n == Mapping(Tcp, w.sshPort, 22) {
    } else {
      var r :| r in t.ingress && r.vmId == v.id && m == Mapping(r.protocol, r.hostPort, r.guestPort);
      var q :| q in t.ingress && q.vmId == w.id && n == Mapping(q.protocol, q.hostPort, q.guestPort);
      assert r == q;
      DistinctRows(t.vms, v, w);
    }
  }

  lemma GuestPortsApart(s: Setup, t: Tables)
    requires Inv(s, t)
    ensures ResolveAll(t, t.vms).Some? && PortsApart(Guests(t))
  {
    hide Inv, Resolve, ResolveAll, Publishes, RowPublishes;
    ResolveAllFinds(s, t, t.vms);
    InvDistinct(s, t);
    ResolvedDistinct(t, t.vms);
    var gs := Guests(t);
    forall k, l, m, n |
      0 <= k < |gs| && 0 <= l < |gs| && Publishes(gs[k], m) && Publishes(gs[l], n) && m.hostPort == n.hostPort
      ensures k == l && m == n
    {
      var v := PublishedBy(t, k, m);
      var w := PublishedBy(t, l, n);
      RowPortsApart(s, t, v, m, w, n);
    }
  }

  /** The egress policy a row declares. */
  function DeclaredPolicy(t: Tables, v: VM): Policy {
    if v.egressPolicyId == "" || GetEgressPolicy(t, v.egressPolicyId).None? then Policy(v.egressMode, [], [], [])
    else var p := GetEgressPolicy(t, v.egressPolicyId).value; Policy(p.mode, p.tcpPorts, p.udpPorts, p.cidrs)
  }

  lemma GuestPolicy(s: Setup, t: Tables, v: VM, g: Guest)
    requires Inv(s, t) && GuestFor(t, v, g)
    ensures g.policy == DeclaredPolicy(t, v) && g.tapName == v.tapName
    ensures g.bridge.Some? ==> Contains(g.bridge.value.cidr, g.guestIP)
  {
    hide CidrWithin, CidrOverlaps, RoutedPlaced;
    assert VMRefs(t, v) && VMPlaced(s.vmCidr, t.networks, v.net);
    if g.bridge.Some? {
      ContainsIffInRange(g.bridge.value.cidr, g.guestIP);
    }
  }

  // ---------------------------------------------------------------------------------------------
  // The theorems

  /** In a registry that meets the invariant with its own table installed, a new packet from an active VM's own device
      and address to the LAN is dropped if its destination is protected, and otherwise gets the verdict of the policy
      the registry declares. */
  lemma EgressNow(s: Setup, h: Host, v: VM, p: Packet)
    requires Inv(s, h.tables) && Synced(s, h) && NamesApart(s, h.tables) && v in h.tables.vms && IsActive(v)
    requires Outbound(s.fw, p) && p.iif == DeviceOf(v) && p.src == v.net.guestIP
    ensures FirstVerdict(h.nft.forward, p) ==
            Some(if InAny(Protected(s.fw), p.dst) then Drop else PolicyVerdict(DeclaredPolicy(h.tables, v), p))
  {
    hide Inv, Resolve, ResolveAll, PolicyVerdict, InAny, NamesApart, DeclaredPolicy;
    var t := h.tables;
    GuestsSeparated(s, t);
    var k := GuestOf(s, t, v);
    ResolvedColumns(t, v, Guests(t)[k]);
    GuestPolicy(s, t, v, Guests(t)[k]);
    OwnPacketMeaning(s.fw, Guests(t), k, p);
  }

  /** After any clean run, an active VM's own new packets to the LAN are treated as the registry declares. */
  lemma EgressEnforced(s: Setup, h0: Host, calls: seq<Call>, v: VM, p: Packet)
    requires h0.tables == EMPTY_TABLES && Clean(s, h0, calls, false)
    requires var t := Run(s, h0, calls).tables; NamesApart(s, t) && v in t.vms && IsActive(v)
    requires Outbound(s.fw, p) && p.iif == DeviceOf(v) && p.src == v.net.guestIP
    ensures FirstVerdict(Run(s, h0, calls).nft.forward, p) ==
            Some(if InAny(Protected(s.fw), p.dst) then Drop
                 else PolicyVerdict(DeclaredPolicy(Run(s, h0, calls).tables, v), p))
  {
    hide Inv, Clean, Run, PolicyVerdict, InAny, NamesApart, DeclaredPolicy, Synced, Outbound, DeviceOf;
    EmptyInv(s);
    RunKeepsInv(s, h0, calls);
    RunSync(s, h0, calls, false);
    EgressNow(s, Run(s, h0, calls), v, p);
  }

  /** A LAN packet to a port that an active VM publishes is rewritten to exactly that VM and port, and a rule then
      accepts it when its source is no active guest. */
  lemma IngressNow(s: Setup, h: Host, v: VM, m: Mapping, p: Packet)
    requires Inv(s, h.tables) && Synced(s, h) && NamesApart(s, h.tables) && v in h.tables.vms && IsActive(v)
    requires RowPublishes(h.tables, v, m) && forall w :: w in h.tables.vms && IsActive(w) ==> w.net.guestIP != p.src
    requires p.isNew && p.iif == s.fw.lan && p.protocol == Some(m.protocol) && p.dport == m.hostPort
    ensures Rewrite(h.nft.prerouting, p) == Some((v.net.guestIP, m.guestPort))
    ensures var q := p.(dst := v.net.guestIP, dport := m.guestPort, oif := DeviceOf(v));
            FirstVerdict(h.nft.forward, q) == Some(Accept)
  {
    hide Inv, Resolve, ResolveAll, Separated, PortsApart;
    var t := h.tables;
    GuestsSeparated(s, t);
    GuestPortsApart(s, t);
    var k := GuestOf(s, t, v);
    ResolvedColumns(t, v, Guests(t)[k]);
    RowMapping(t, v, Guests(t)[k], m);
    PublishedPortRewritten(s.fw, Guests(t), k, m, p);
    var q := p.(dst := v.net.guestIP, dport := m.guestPort, oif := DeviceOf(v));
    forall j | 0 <= j < |Guests(t)|
      ensures Guests(t)[j].guestIP != q.src
    {
      var w := RowOf(t, j);
    }
    PublishedPortAccepted(s.fw, Guests(t), k, m, q);
  }

  /** After any clean run, the ports that an active VM publishes lead to it. */
  lemma IngressEnforced(s: Setup, h0: Host, calls: seq<Call>, v: VM, m: Mapping, p: Packet)
    requires h0.tables == EMPTY_TABLES && Clean(s, h0, calls, false)
    requires var t := Run(s, h0, calls).tables;
             NamesApart(s, t) && v in t.vms && IsActive(v) && RowPublishes(t, v, m)
             && forall w :: w in t.vms && IsActive(w) ==> w.net.guestIP != p.src
    requires p.isNew && p.iif == s.fw.lan && p.protocol == Some(m.protocol) && p.dport == m.hostPort
    ensures Rewrite(Run(s, h0, calls).nft.prerouting, p) == Some((v.net.guestIP, m.guestPort))
    ensures var q := p.(dst := v.net.guestIP, dport := m.guestPort, oif := DeviceOf(v));
            FirstVerdict(Run(s, h0, calls).nft.forward, q) == Some(Accept)
  {
    hide Inv, Clean, Run, NamesApart, RowPublishes, Synced, DeviceOf;
    EmptyInv(s);
    RunKeepsInv(s, h0, calls);
    RunSync(s, h0, calls, false);
    IngressNow(s, Run(s, h0, calls), v, m, p);
  }

  lemma RowMapping(t: Tables, v: VM, g: Guest, m: Mapping)
    requires RowPublishes(t, v, m) && g.sshPort == v.sshPort && g.ingress == ListIngressRules(t, v.id)
    ensures Publishes(g, m)
  {
    if m != Mapping(Tcp, v.sshPort, 22) {
      var r :| r in t.ingress && r.vmId == v.id && m == Mapping(r.protocol, r.hostPort, r.guestPort);
      assert r in g.ingress;
    }
  }

  /** A LAN packet to a port that no active VM publishes keeps its destination. */
  lemma UnpublishedEnforced(s: Setup, h0: Host, calls: seq<Call>, p: Packet)
    requires h0.tables == EMPTY_TABLES && Clean(s, h0, calls, false)
    requires var t := Run(s, h0, calls).tables;
             forall v, m :: v in t.vms && IsActive(v) && RowPublishes(t, v, m) ==>
               p.protocol != Some(m.protocol) || p.dport != m.hostPort
    ensures Rewrite(Run(s, h0, calls).nft.prerouting, p) == None
  {
    hide Inv, Resolve, ResolveAll, Clean, Run, Publishes, RowPublishes;
    EmptyInv(s);
    RunKeepsInv(s, h0, calls);
    RunSync(s, h0, calls, false);
    var t := Run(s, h0, calls).tables;
    ResolveAllFinds(s, t, t.vms);
    forall k, m | 0 <= k < |Guests(t)| && Publishes(Guests(t)[k], m)
      ensures p.protocol != Some(m.protocol) || p.dport != m.hostPort
    {
      var v := PublishedBy(t, k, m);
    }
    UnpublishedPortKept(s.fw, Guests(t), p);
  }

  /** After any clean run, a new packet from an active VM's device with an address of no active VM is dropped exactly
      when the VM is routed or the address is outside its network. */
  lemma SpoofingEnforced(s: Setup, h0: Host, calls: seq<Call>, v: VM, p: Packet)
    requires h0.tables == EMPTY_TABLES && Clean(s, h0, calls, false)
    requires var t := Run(s, h0, calls).tables;
             NamesApart(s, t) && v in t.vms && IsActive(v)
             && forall w :: w in t.vms && IsActive(w) ==> w.net.guestIP != p.src
    requires Outbound(s.fw, p) && p.iif == DeviceOf(v)
    ensures var n := GetNetwork(Run(s, h0, calls).tables, v.net.networkId);
            ChainVerdict(Run(s, h0, calls).nft.forward, p) == Drop <==>
            v.net.mode != Shared || n.None? || !Contains(n.value.cidr, p.src)
  {
    hide Inv, Resolve, ResolveAll, Clean, Run, NamesApart, Separated, Contains, ChainVerdict;
    EmptyInv(s);
    RunKeepsInv(s, h0, calls);
    RunSync(s, h0, calls, false);
    var t := Run(s, h0, calls).tables;
    GuestsSeparated(s, t);
    var k := GuestOf(s, t, v);
    ResolvedColumns(t, v, Guests(t)[k]);
    forall j | 0 <= j < |Guests(t)|
      ensures Guests(t)[j].guestIP != p.src
    {
      var w := RowOf(t, j);
    }
    UnknownSourceDropped(s.fw, Guests(t), k, p);
  }

  /** After any clean run, packets of established connections are accepted by a rule, in both directions. */
  lemma EstablishedEnforced(s: Setup, h0: Host, calls: seq<Call>, p: Packet)
    requires h0.tables == EMPTY_TABLES && Clean(s, h0, calls, false)
    requires !p.isNew
    ensures FirstVerdict(Run(s, h0, calls).nft.forward, p) == Some(Accept)
  {
    hide Inv, Compile, Clean, Run;
    EmptyInv(s);
    RunKeepsInv(s, h0, calls);
    RunSync(s, h0, calls, false);
    EstablishedAccepted(s.fw, Run(s, h0, calls).tables, Run(s, h0, calls).nft, p);
  }

  /** After any clean run, the input chain accepts, by a rule, exactly the requests of active VMs to the metadata port
      of their own host address, and drops nothing. */
  lemma MetadataEnforced(s: Setup, h0: Host, calls: seq<Call>, p: Packet)
    requires h0.tables == EMPTY_TABLES && Clean(s, h0, calls, false)
    ensures FirstVerdict(Run(s, h0, calls).nft.input, p) ==
            if exists v :: v in Run(s, h0, calls).tables.vms && IsActive(v) && p.iif == DeviceOf(v)
                           && p.src == v.net.guestIP && v.net.hostIP == Some(p.dst)
                           && p.protocol == Some(Tcp) && p.dport == s.fw.metadataPort
            then Some(Accept) else None
  {
    hide Inv, Clean, Run, Resolve, ResolveAll, DeviceOf, Device, FirstVerdict;
    EmptyInv(s);
    RunKeepsInv(s, h0, calls);
    RunSync(s, h0, calls, false);
    var t := Run(s, h0, calls).tables;
    ResolveAllFinds(s, t, t.vms);
    InputMeaning(s.fw, Guests(t), p);
    if k :| 0 <= k < |Guests(t)| && MetadataRequest(s.fw, Guests(t)[k], p) {
      var v := RowOf(t, k);
      ResolvedHost(t, v, Guests(t)[k]);
    }
    if v :| v in t.vms && IsActive(v) && p.iif == DeviceOf(v) && p.src == v.net.guestIP && v.net.hostIP == Some(p.dst)
            && p.protocol == Some(Tcp) && p.dport == s.fw.metadataPort {
      var k := GuestOf(s, t, v);
      ResolvedColumns(t, v, Guests(t)[k]);
      ResolvedHost(t, v, Guests(t)[k]);
      assert MetadataRequest(s.fw, Guests(t)[k], p);
    }
  }

  lemma ResolvedHost(t: Tables, v: VM, g: Guest)
    requires Resolve(t, v) == Some(g)
    ensures v.net.hostIP == Some(g.hostIP)
  {
  }

  /** After any clean run, exactly the packets that active VMs send out by the LAN are masqueraded. */
  lemma MasqueradeEnforced(s: Setup, h0: Host, calls: seq<Call>, p: Packet)
    requires h0.tables == EMPTY_TABLES && Clean(s, h0, calls, false)
    ensures Masqueraded(Run(s, h0, calls).nft, p) <==>
            p.oif == s.fw.lan
            && exists v :: v in Run(s, h0, calls).tables.vms && IsActive(v) && v.net.guestIP == p.src
  {
    hide Inv, Clean, Run, Resolve, ResolveAll, Masqueraded;
    EmptyInv(s);
    RunKeepsInv(s, h0, calls);
    RunSync(s, h0, calls, false);
    var t := Run(s, h0, calls).tables;
    ResolveAllFinds(s, t, t.vms);
    MasqueradeMeaning(s.fw, Guests(t), p);
    if k :| 0 <= k < |Guests(t)| && Guests(t)[k].guestIP == p.src {
      var v := RowOf(t, k);
    }
    if v :| v in t.vms && IsActive(v) && v.net.guestIP == p.src {
      var k := GuestOf(s, t, v);
      ResolvedColumns(t, v, Guests(t)[k]);
    }
  }

  /** The guard of the VM's device rejects the source: a routed VM may use its own address only, a VM on a bridge the
      addresses of its network. */
  predicate RejectsSource(t: Tables, v: VM, src: u32) {
    if v.net.mode == Shared then GetNetwork(t, v.net.networkId).Some?
                                 && !Contains(GetNetwork(t, v.net.networkId).value.cidr, src)
    else v.net.guestIP != src
  }

  lemma RejectsAsSpoofed(t: Tables, v: VM, g: Guest, p: Packet)
    requires Resolve(t, v) == Some(g)
    ensures Spoofed(g, p) <==> RejectsSource(t, v, p.src)
  {
    hide Contains;
  }

  /** After any clean run, a new packet off the LAN is dropped exactly when the guard of its device rejects its source,
      or its source is an active VM's address and its destination protected; no rule accepts one. */
  lemma SidewaysEnforced(s: Setup, h0: Host, calls: seq<Call>, p: Packet)
    requires h0.tables == EMPTY_TABLES && Clean(s, h0, calls, false)
    requires NamesApart(s, Run(s, h0, calls).tables) && Sideways(s.fw, p)
    ensures
      var t := Run(s, h0, calls).tables;
      FirstVerdict(Run(s, h0, calls).nft.forward, p) ==
      if (exists v :: v in t.vms && IsActive(v) && p.iif == DeviceOf(v) && RejectsSource(t, v, p.src))
         || (InAny(Protected(s.fw), p.dst) && exists v :: v in t.vms && IsActive(v) && v.net.guestIP == p.src)
      then Some(Drop) else None
  {
    hide Inv, Clean, Run, Resolve, ResolveAll, DeviceOf, Device, NamesApart, Separated, Spoofed, RejectsSource, InAny;
    EmptyInv(s);
    RunKeepsInv(s, h0, calls);
    RunSync(s, h0, calls, false);
    var t := Run(s, h0, calls).tables;
    GuestsSeparated(s, t);
    SidewaysMeaning(s.fw, Guests(t), p);
    SidewaysGuests(s, t, p);
  }

  lemma SidewaysGuests(s: Setup, t: Tables, p: Packet)
    requires Inv(s, t) && ResolveAll(t, t.vms).Some?
    ensures (exists k :: 0 <= k < |Guests(t)| && p.iif == Device(Guests(t)[k]) && Spoofed(Guests(t)[k], p)) <==>
            exists v :: v in t.vms && IsActive(v) && p.iif == DeviceOf(v) && RejectsSource(t, v, p.src)
    ensures (exists k :: 0 <= k < |Guests(t)| && OwnProtected(s.fw, Guests(t)[k], p)) <==>
            InAny(Protected(s.fw), p.dst) && exists v :: v in t.vms && IsActive(v) && v.net.guestIP == p.src
  {
    hide Inv, Resolve, ResolveAll, DeviceOf, Device, Spoofed, RejectsSource, InAny;
    forall k | 0 <= k < |Guests(t)|
      ensures exists v :: v in t.vms && IsActive(v) && DeviceOf(v) == Device(Guests(t)[k])
                          && v.net.guestIP == Guests(t)[k].guestIP
                          && (RejectsSource(t, v, p.src) <==> Spoofed(Guests(t)[k], p))
    {
      var v := RowOf(t, k);
      RejectsAsSpoofed(t, v, Guests(t)[k], p);
    }
    forall v | v in t.vms && IsActive(v)
      ensures exists k :: 0 <= k < |Guests(t)| && DeviceOf(v) == Device(Guests(t)[k])
                          && v.net.guestIP == Guests(t)[k].guestIP
                          && (RejectsSource(t, v, p.src) <==> Spoofed(Guests(t)[k], p))
    {
      var k := GuestOf(s, t, v);
      ResolvedColumns(t, v, Guests(t)[k]);
      RejectsAsSpoofed(t, v, Guests(t)[k], p);
    }
  }

  /** After any clean run, a rule accepts a new packet from the LAN exactly when it goes to an active VM at port 22 or
      at the guest port of one of its ingress rules; no rule drops one. */
  lemma InboundEnforced(s: Setup, h0: Host, calls: seq<Call>, p: Packet)
    requires h0.tables == EMPTY_TABLES && Clean(s, h0, calls, false)
    requires NamesApart(s, Run(s, h0, calls).tables) && p.isNew && p.iif == s.fw.lan
    requires forall w :: w in Run(s, h0, calls).tables.vms && IsActive(w) ==> w.net.guestIP != p.src
    ensures
      var t := Run(s, h0, calls).tables;
      FirstVerdict(Run(s, h0, calls).nft.forward, p) ==
      if exists v, m :: v in t.vms && IsActive(v) && RowPublishes(t, v, m) && p.oif == DeviceOf(v)
                        && p.dst == v.net.guestIP && p.protocol == Some(m.protocol) && p.dport == m.guestPort
      then Some(Accept) else None
  {
    hide Inv, Clean, Run, Resolve, ResolveAll, DeviceOf, Device, NamesApart, Separated, ToPublished, RowPublishes;
    EmptyInv(s);
    RunKeepsInv(s, h0, calls);
    RunSync(s, h0, calls, false);
    var t := Run(s, h0, calls).tables;
    GuestsSeparated(s, t);
    forall j | 0 <= j < |Guests(t)|
      ensures Guests(t)[j].guestIP != p.src
    {
      var w := RowOf(t, j);
    }
    InboundMeaning(s.fw, Guests(t), p);
    if k :| 0 <= k < |Guests(t)| && ToPublished(Guests(t)[k], p) {
      var v := RowOf(t, k);
      var m := ToPublishedRow(t, v, Guests(t)[k], p);
    }
    if v, m :| v in t.vms && IsActive(v) && RowPublishes(t, v, m) && p.oif == DeviceOf(v)
               && p.dst == v.net.guestIP && p.protocol == Some(m.protocol) && p.dport == m.guestPort {
      var k := GuestOf(s, t, v);
      ResolvedColumns(t, v, Guests(t)[k]);
      RowToPublished(t, v, Guests(t)[k], m, p);
    }
  }

  lemma ToPublishedRow(t: Tables, v: VM, g: Guest, p: Packet) returns (m: Mapping)
    requires g.sshPort == v.sshPort && g.ingress == ListIngressRules(t, v.id) && g.guestIP == v.net.guestIP
    requires Device(g) == DeviceOf(v) && ToPublished(g, p)
    ensures RowPublishes(t, v, m) && p.oif == DeviceOf(v) && p.dst == v.net.guestIP
    ensures p.protocol == Some(m.protocol) && p.dport == m.guestPort
  {
    hide Device, DeviceOf;
    m := PublishedFor(g, p);
    if m != Mapping(Tcp, g.sshPort, 22) {
      var r :| r in g.ingress && m == Mapping(r.protocol, r.hostPort, r.guestPort);
      assert r in t.ingress;
    }
  }

  lemma RowToPublished(t: Tables, v: VM, g: Guest, m: Mapping, p: Packet)
    requires g.ingress == ListIngressRules(t, v.id) && g.guestIP == v.net.guestIP && Device(g) == DeviceOf(v)
    requires RowPublishes(t, v, m) && p.oif == DeviceOf(v) && p.dst == v.net.guestIP
    requires p.protocol == Some(m.protocol) && p.dport == m.guestPort
    ensures ToPublished(g, p)
  {
    hide Device, DeviceOf;
    if m != Mapping(Tcp, v.sshPort, 22) {
      var r :| r in t.ingress && r.vmId == v.id && m == Mapping(r.protocol, r.hostPort, r.guestPort);
      assert r in g.ingress;
    }
  }
}
