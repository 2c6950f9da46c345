/** The parts of the compiled table besides new packets from guests to the LAN: packets of established connections,
    packets between guests, packets from the LAN, the input and postrouting chains, the built-in protected addresses,
    the names of bridges, and when compiling fails. */
module OtherChains {
  import opened Cidr
  import opened Model
  import opened Database
  import opened Firewall
  import opened FirewallMeaning

  // ---------------------------------------------------------------------------------------------
  // Established connections

  /** A packet of an established connection is accepted by a rule, in both directions and whoever sent it. */
  lemma EstablishedAccepted(cfg: Config, t: Tables, tbl: Table, p: Packet)
    requires Compile(cfg, t) == Some(tbl) && !p.isNew
    ensures FirstVerdict(tbl.forward, p) == Some(Accept)
  {
    hide Contains, ResolveAll;
    var gs := ResolveAll(t, t.vms).value;
    ForwardKeeps(cfg, BASE, gs, {}, p);
  }

  // ---------------------------------------------------------------------------------------------
  // Packets that stay off the LAN

  /** A packet of a new connection that neither comes from the LAN nor leaves by it. */
  predicate Sideways(cfg: Config, p: Packet) {
    p.isNew && p.iif != cfg.lan && p.oif != cfg.lan
  }

  predicate OwnProtected(cfg: Config, g: Guest, p: Packet) {
    p.src == g.guestIP && InAny(Protected(cfg), p.dst)
  }

  lemma SidewaysBlock(cfg: Config, g: Guest, seen: set<Id>, p: Packet)
    requires Sideways(cfg, p)
    ensures FirstVerdict(ForwardBlock(cfg, g, seen), p) ==
            if GuardFires(g, seen, p) || OwnProtected(cfg, g, p) then Some(Drop) else None
  {
    hide InAny, Protected, Contains, BridgeName;
    var guard, ssh, own := GuardRules(g, seen), [FromLan(cfg, g, Tcp, 22)], ProtectedRules(g, Protected(cfg));
    var ingress, egress := IngressRules(cfg, g), EgressRules(cfg, g);
    FirstVerdictAppend(guard, ssh + (own + (ingress + egress)), p);
    FirstVerdictAppend(ssh, own + (ingress + egress), p);
    FirstVerdictAppend(own, ingress + egress, p);
    FirstVerdictAppend(ingress, egress, p);
    ProtectedMeaning(g, Protected(cfg), p);
    UniformVerdict(ingress, p, Accept);
    EgressNeedsLan(cfg, g, p);
    UniformVerdict(egress, p, Accept);
  }

  lemma EgressNeedsLan(cfg: Config, g: Guest, p: Packet)
    requires p.oif != cfg.lan
    ensures forall r :: r in EgressRules(cfg, g) ==> !Matches(r, p)
  {
    assert forall r :: r in EgressRules(cfg, g) ==> r.oif == Some(cfg.lan);
  }

  predicate SidewaysDrop(cfg: Config, g: Guest, seen: set<Id>, p: Packet) {
    GuardFires(g, seen, p) || OwnProtected(cfg, g, p)
  }

  lemma {:induction false} SidewaysWalk(cfg: Config, tbl: Table, gs: seq<Guest>, seen: set<Id>, p: Packet)
    requires Separated(cfg, gs) && Sideways(cfg, p) && FirstVerdict(tbl.forward, p) == None
    ensures FirstVerdict(Extend(tbl, cfg, gs, seen).forward, p) ==
            if exists k :: 0 <= k < |gs| && SidewaysDrop(cfg, gs[k], seen, p) then Some(Drop) else None
    decreases |gs|
  {
    hide ForwardBlock, NatBlock, InputRule, OwnProtected, Sideways, BridgeName, Contains;
    if gs != [] {
      var next, more := ExtendOne(tbl, cfg, gs[0], seen), Seen(gs[0], seen);
      FirstVerdictAppend(tbl.forward, ForwardBlock(cfg, gs[0], seen), p);
      SidewaysBlock(cfg, gs[0], seen, p);
      if SidewaysDrop(cfg, gs[0], seen, p) {
        ForwardKeeps(cfg, next, gs[1..], more, p);
      } else {
        SidewaysWalk(cfg, next, gs[1..], more, p);
        forall k | 0 < k < |gs|
          ensures SidewaysDrop(cfg, gs[k], seen, p) <==> SidewaysDrop(cfg, gs[1..][k - 1], more, p)
        {
          assert gs[1..][k - 1] == gs[k];
        }
      }
    }
  }

  /** Between guests, and to anything else off the LAN, a rule drops exactly the packets whose source the sending
      device's guard rejects, and those of an active VM's address to a protected address. No rule accepts any. */
  lemma SidewaysMeaning(cfg: Config, gs: seq<Guest>, p: Packet)
    requires Separated(cfg, gs) && Sideways(cfg, p)
    ensures FirstVerdict(Extend(BASE, cfg, gs, {}).forward, p) ==
            if (exists k :: 0 <= k < |gs| && p.iif == Device(gs[k]) && Spoofed(gs[k], p))
               || (exists k :: 0 <= k < |gs| && OwnProtected(cfg, gs[k], p)) then Some(Drop) else None
  {
    hide Extend, Device, Spoofed, OwnProtected, Separated;
    SidewaysWalk(cfg, BASE, gs, {}, p);
    forall k | 0 <= k < |gs|
      ensures SidewaysDrop(cfg, gs[k], {}, p) <==>
              (p.iif == Device(gs[k]) && Spoofed(gs[k], p)) || OwnProtected(cfg, gs[k], p)
    {
    }
  }

  // ---------------------------------------------------------------------------------------------
  // Packets from the LAN

  lemma {:induction false} ForwardRules(cfg: Config, tbl: Table, gs: seq<Guest>, seen: set<Id>, r: Rule)
    requires r in Extend(tbl, cfg, gs, seen).forward
    ensures r in tbl.forward || exists k, s :: 0 <= k < |gs| && r in ForwardBlock(cfg, gs[k], s)
    decreases |gs|
  {
    hide ForwardBlock, NatBlock, InputRule;
    if gs != [] {
      ForwardRules(cfg, ExtendOne(tbl, cfg, gs[0], seen), gs[1..], Seen(gs[0], seen), r);
      if r in ForwardBlock(cfg, gs[0], seen) {
      } else if r !in tbl.forward {
        var k, s :| 0 <= k < |gs[1..]| && r in ForwardBlock(cfg, gs[1..][k], s);
        assert r in ForwardBlock(cfg, gs[k + 1], s);
      }
    }
  }

  /** The packet is addressed to a guest at a port that some mapping publishes. */
  predicate ToPublished(g: Guest, p: Packet) {
    p.oif == Device(g) && p.dst == g.guestIP
    && ((p.protocol == Some(Tcp) && p.dport == 22)
        || exists r :: r in g.ingress && p.protocol == Some(r.protocol) && p.dport == r.guestPort)
  }

  lemma InboundRule(cfg: Config, g: Guest, seen: set<Id>, r: Rule, p: Packet)
    requires p.isNew && p.iif == cfg.lan && p.src != g.guestIP && Device(g) != cfg.lan
    requires r in ForwardBlock(cfg, g, seen) && Matches(r, p)
    ensures ToPublished(g, p)
  {
    hide Contains, InAny, BridgeName;
    assert r !in GuardRules(g, seen);
    assert r !in ProtectedRules(g, Protected(cfg));
    EgressNeedsSource(cfg, g, p);
    var ingress := IngressRules(cfg, g);
    if r in ingress {
      var i :| 0 <= i < |ingress| && ingress[i] == r;
      assert g.ingress[i] in g.ingress;
    }
  }

  /** A rule accepts a new packet from the LAN exactly when it goes to an active VM's SSH port or to a guest port of one
      of its ingress rules; no rule drops one. */
  lemma InboundMeaning(cfg: Config, gs: seq<Guest>, p: Packet)
    requires Separated(cfg, gs) && Inbound(cfg, gs, p)
    ensures FirstVerdict(Extend(BASE, cfg, gs, {}).forward, p) ==
            if exists k :: 0 <= k < |gs| && ToPublished(gs[k], p) then Some(Accept) else None
  {
    hide Extend, ForwardBlock, Device;
    var rules := Extend(BASE, cfg, gs, {}).forward;
    if k :| 0 <= k < |gs| && ToPublished(gs[k], p) {
      var m := PublishedFor(gs[k], p);
      PublishedPortAccepted(cfg, gs, k, m, p);
    } else {
      forall r | r in rules
        ensures !Matches(r, p)
      {
        ForwardRules(cfg, BASE, gs, {}, r);
        if k, s :| 0 <= k < |gs| && r in ForwardBlock(cfg, gs[k], s) && Matches(r, p) {
          InboundRule(cfg, gs[k], s, r, p);
        }
      }
      UniformVerdict(rules, p, Accept);
    }
  }

  lemma PublishedFor(g: Guest, p: Packet) returns (m: Mapping)
    requires ToPublished(g, p)
    ensures Publishes(g, m) && p.protocol == Some(m.protocol) && p.dport == m.guestPort
  {
    if p.protocol == Some(Tcp) && p.dport == 22 {
      m := Mapping(Tcp, g.sshPort, 22);
    } else {
      var r :| r in g.ingress && p.protocol == Some(r.protocol) && p.dport == r.guestPort;
      m := Mapping(r.protocol, r.hostPort, r.guestPort);
    }
  }

  // ---------------------------------------------------------------------------------------------
  // The input chain

  /** A VM asks the metadata service of its host address. */
  predicate MetadataRequest(cfg: Config, g: Guest, p: Packet) {
    p.iif == Device(g) && p.src == g.guestIP && p.dst == g.hostIP
    && p.protocol == Some(Tcp) && p.dport == cfg.metadataPort
  }

  lemma {:induction false} InputRules(cfg: Config, tbl: Table, gs: seq<Guest>, seen: set<Id>, r: Rule)
    ensures r in Extend(tbl, cfg, gs, seen).input <==>
            r in tbl.input || exists k :: 0 <= k < |gs| && r == InputRule(cfg, gs[k])
    decreases |gs|
  {
    hide InputRule, ForwardBlock, NatBlock;
    if gs != [] {
      InputRules(cfg, ExtendOne(tbl, cfg, gs[0], seen), gs[1..], Seen(gs[0], seen), r);
      if k :| 0 <= k < |gs| && r == InputRule(cfg, gs[k]) {
        assert k > 0 ==> gs[k] == gs[1..][k - 1];
      }
    }
  }

  /** The input chain accepts, by a rule, exactly the metadata requests of the active VMs, and drops nothing. */
  lemma InputMeaning(cfg: Config, gs: seq<Guest>, p: Packet)
    ensures FirstVerdict(Extend(BASE, cfg, gs, {}).input, p) ==
            if exists k :: 0 <= k < |gs| && MetadataRequest(cfg, gs[k], p) then Some(Accept) else None
  {
    hide Extend, Device;
    var rules := Extend(BASE, cfg, gs, {}).input;
    forall r
      ensures r in rules <==> exists k :: 0 <= k < |gs| && r == InputRule(cfg, gs[k])
    {
      InputRules(cfg, BASE, gs, {}, r);
    }
    UniformVerdict(rules, p, Accept);
    if k :| 0 <= k < |gs| && MetadataRequest(cfg, gs[k], p) {
      assert Matches(InputRule(cfg, gs[k]), p);
    }
  }

  // ---------------------------------------------------------------------------------------------
  // The postrouting chain

  predicate Masqueraded(tbl: Table, p: Packet) {
    exists m :: m in tbl.postrouting && m.src == p.src && m.oif == p.oif
  }

  lemma {:induction false} PostroutingRules(cfg: Config, tbl: Table, gs: seq<Guest>, seen: set<Id>, m: Masquerade)
    ensures m in Extend(tbl, cfg, gs, seen).postrouting <==>
            m in tbl.postrouting || exists k :: 0 <= k < |gs| && m.src == gs[k].guestIP && m.oif == cfg.lan
    decreases |gs|
  {
    hide InputRule, ForwardBlock, NatBlock;
    if gs != [] {
      PostroutingRules(cfg, ExtendOne(tbl, cfg, gs[0], seen), gs[1..], Seen(gs[0], seen), m);
      if k :| 0 <= k < |gs| && m.src == gs[k].guestIP && m.oif == cfg.lan {
        assert k > 0 ==> gs[k] == gs[1..][k - 1];
      }
    }
  }

  /** Exactly the packets of active VMs that leave by the LAN are masqueraded. */
  lemma MasqueradeMeaning(cfg: Config, gs: seq<Guest>, p: Packet)
    ensures Masqueraded(Extend(BASE, cfg, gs, {}), p) <==>
            p.oif == cfg.lan && exists k :: 0 <= k < |gs| && gs[k].guestIP == p.src
  {
    hide Extend;
    forall m
      ensures m in Extend(BASE, cfg, gs, {}).postrouting <==>
              exists k :: 0 <= k < |gs| && m.src == gs[k].guestIP && m.oif == cfg.lan
    {
      PostroutingRules(cfg, BASE, gs, {}, m);
    }
    if k :| 0 <= k < |gs| && gs[k].guestIP == p.src && p.oif == cfg.lan {
      assert Masquerade(p.src, p.oif) in Extend(BASE, cfg, gs, {}).postrouting;
    }
  }

  // ---------------------------------------------------------------------------------------------
  // Protected addresses and bridge names

  /** Without a configured list, 127.0.0.0/8 and 169.254.169.254 are protected; with one, exactly its addresses. */
  lemma ProtectedAddresses(cfg: Config, ip: u32)
    ensures InAny(Protected(cfg), ip) <==>
            if cfg.protectedCidrs == [] then 0x7f00_0000 <= ip <= 0x7fff_ffff || ip == 0xa9fe_a9fe
            else exists c :: c in cfg.protectedCidrs && InRange(c, ip)
  {
    hide Contains, MaskedBlock, Low, And, Pow2;
    forall c: IPNet
      ensures Contains(c, ip) <==> InRange(c, ip)
    {
      ContainsIffInRange(c, ip);
    }
    if cfg.protectedCidrs == [] {
      BuiltIn();
      InEither(MaskedBlock(0x7f00_0000, 8), MaskedBlock(0xa9fe_a9fe, 32), ip);
    }
  }

  lemma InEither(a: IPNet, b: IPNet, ip: u32)
    ensures InAny([a, b], ip) <==> Contains(a, ip) || Contains(b, ip)
  {
    hide Contains;
    assert [a, b][0] == a && [a, b][1] == b;
    if Contains(a, ip) {
      assert a in [a, b];
    }
    if Contains(b, ip) {
      assert b in [a, b];
    }
  }

  lemma BuiltIn()
    ensures First(MaskedBlock(0x7f00_0000, 8)) == 0x7f00_0000 && Last(MaskedBlock(0x7f00_0000, 8)) == 0x7fff_ffff
    ensures First(MaskedBlock(0xa9fe_a9fe, 32)) == Last(MaskedBlock(0xa9fe_a9fe, 32)) == 0xa9fe_a9fe
  {
    hide Low, And, Pow2;
    Pow2Of24();
    LowOfLoopback();
    var a := MaskedBlock(0x7f00_0000, 8);
    if a.ip < 0x7f00_0000 {
      ClearedGap(a.ip, 0x7f00_0000, 24);
    }
  }

  lemma Pow2Of24()
    ensures Pow2(24) == 0x100_0000 && Pow2(0) == 1
  {
    assert Pow2(8) == 256;
    assert Pow2(16) == 0x1_0000;
  }

  lemma LowOfLoopback()
    ensures Low(0x7f00_0000, 24) == 0
  {
    LowOfMultiple(0x7f, 24);
    Pow2Of24();
  }

  lemma {:induction false} LowOfMultiple(x: nat, k: nat)
    ensures Low(x * Pow2(k), k) == 0
  {
    if k > 0 {
      LowOfMultiple(x, k - 1);
      assert x * Pow2(k) == 2 * (x * Pow2(k - 1));
      LowDouble(x * Pow2(k - 1), k);
    }
  }

  /** The part of an id that a bridge name keeps. */
  function Kept(id: Id): Id {
    if |id| <= 8 then id else id[..8]
  }

  /** Bridge names are valid interface names in length, and two networks get the same bridge exactly when their ids
      agree, but for case, in the eight characters that are kept. For lower-case ids the name is "br-bap-" and those. */
  lemma BridgeNames(a: Id, b: Id)
    ensures |BridgeName(a)| <= 15
    ensures (forall c :: c in a ==> !('A' <= c <= 'Z')) ==> BridgeName(a) == "br-bap-" + Kept(a)
    ensures BridgeName(a) == BridgeName(b) <==> Lower(Kept(a)) == Lower(Kept(b))
  {
    BridgeNameKept(a);
    BridgeNameKept(b);
    assert ("br-bap-" + Lower(Kept(a)))[7..] == Lower(Kept(a)) && ("br-bap-" + Lower(Kept(b)))[7..] == Lower(Kept(b));
    if forall c :: c in a ==> !('A' <= c <= 'Z') {
      assert forall i :: 0 <= i < |Kept(a)| ==> Kept(a)[i] == a[i] && a[i] in a;
      assert Lower(Kept(a)) == Kept(a);
    }
  }

  lemma BridgeNameKept(id: Id)
    ensures BridgeName(id) == "br-bap-" + Lower(Kept(id))
  {
    if |id| > 8 {
      assert ("br-bap-" + Lower(id))[..15] == "br-bap-" + Lower(id[..8]);
    }
  }

  // ---------------------------------------------------------------------------------------------
  // When compiling fails

  /** What applyNFT cannot compile: an active VM without a host address, without its network or its policy, or with a
      mode it does not know. */
  predicate Uncompilable(t: Tables, v: VM) {
    || v.net.hostIP.None?
    || (v.net.mode == Shared && forall n :: n in t.networks ==> n.id != v.net.networkId)
    || (v.egressPolicyId != "" && forall p :: p in t.policies ==> p.id != v.egressPolicyId)
    || (v.egressPolicyId == "" && v.egressMode == OtherEgress)
    || (v.egressPolicyId != "" && GetEgressPolicy(t, v.egressPolicyId).Some?
        && GetEgressPolicy(t, v.egressPolicyId).value.mode == OtherEgress)
  }

  lemma {:induction false} ResolveAllFails(t: Tables, vms: seq<VM>)
    ensures ResolveAll(t, vms).None? <==> exists v :: v in vms && IsActive(v) && Uncompilable(t, v)
  {
    if vms != [] {
      ResolveAllFails(t, vms[1..]);
      ResolveFails(t, vms[0]);
      hide Uncompilable, Resolve;
      if v :| v in vms && IsActive(v) && Uncompilable(t, v) && v != vms[0] {
        assert v in vms[1..];
      }
    }
  }

  lemma ResolveFails(t: Tables, v: VM)
    ensures Resolve(t, v).None? <==> Uncompilable(t, v)
  {
  }

  lemma CompileFailsExactly(cfg: Config, t: Tables)
    ensures Compile(cfg, t).None? <==>
            exists v :: v in t.vms && (v.state == Running || v.state == Starting) && Uncompilable(t, v)
  {
    hide Uncompilable, Extend;
    ResolveAllFails(t, t.vms);
  }
}
