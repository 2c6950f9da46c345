/** The exact capacity of a shared network. */
module Capacity {
  import opened Cidr
  import opened Model
  import opened Database
  import opened Allocation
  import opened Lifecycle
  import opened Invariants

  function OnNetwork(t: Tables, n: Network): seq<VM> {
    Filter(t.vms, (v: VM) => v.net.mode == Shared && v.net.networkId == n.id)
  }

  function GuestsOf(vms: seq<VM>): set<u32> {
    set v | v in vms :: v.net.guestIP
  }

  predicate Between(lo: int, x: int, hi: int) {
    lo <= x < hi
  }

  function Span(lo: int, hi: int): set<u32> {
    set x: u32 | Between(lo, x, hi)
  }

  /** Addresses strictly between the first and last of a block. */
  function Interior(c: IPNet): set<u32> {
    Span(First(c) + 1, Last(c))
  }

  lemma {:induction false} SpanSize(lo: int, hi: int)
    requires 0 <= lo <= hi <= 0x1_0000_0000
    ensures |Span(lo, hi)| == hi - lo
    decreases hi - lo
  {
    if lo == hi {
      assert Span(lo, hi) == {};
    } else {
      SpanSize(lo, hi - 1);
      assert Span(lo, hi) == Span(lo, hi - 1) + {hi - 1};
    }
  }

  lemma {:induction false} GuestCount(vms: seq<VM>)
    requires Distinct(vms)
    ensures |GuestsOf(vms)| == |vms|
  {
    if vms == [] {
    } else {
      GuestCount(vms[1..]);
      assert GuestsOf(vms) == {vms[0].net.guestIP} + GuestsOf(vms[1..]);
      assert forall w :: w in vms[1..] ==> !Clash(vms[0], w);
    }
  }

  lemma RoutedOutside(s: Setup, t: Tables, n: Network, v: VM)
    requires Inv(s, t) && n in t.networks && v in t.vms && v.net.mode == Routed
    ensures v.net.guestIP !in Interior(n.cidr)
  {
    hide CidrOverlaps, CidrWithin, RoutedRange, PortPlan, RefPlan, NetworksApart, Distinct, NetworkPlaced;
    assert VMPlaced(s.vmCidr, t.networks, v.net);
    RoutedGuestInside(s.vmCidr, v.net);
    DisjointAddresses(RoutedRange(v.net).value, n.cidr, v.net.guestIP);
  }

  lemma SharedInside(s: Setup, t: Tables, n: Network, v: VM)
    requires Inv(s, t) && n in t.networks && v in t.vms && v.net.mode == Shared
    ensures v.net.networkId == n.id ==> v.net.guestIP in Interior(n.cidr) && v.net.guestIP != n.gateway
    ensures v.net.networkId != n.id ==> v.net.guestIP !in Interior(n.cidr)
  {
    hide CidrOverlaps, CidrWithin, RoutedRange, PortPlan, RefPlan, Distinct, NetworkPlaced, RoutedPlaced;
    assert VMPlaced(s.vmCidr, t.networks, v.net);
    var m :| m in t.networks && SharedPlaced(m, v.net);
    if m != n {
      DisjointAddresses(m.cidr, n.cidr, v.net.guestIP);
    }
  }

  lemma Placed(s: Setup, t: Tables, v: VM)
    requires Inv(s, t) && v in t.vms
    ensures v.net.mode == Routed || v.net.mode == Shared
  {
    hide CidrOverlaps, CidrWithin, RoutedRange, PortPlan, RefPlan, Distinct, NetworkPlaced, RoutedPlaced, SharedPlaced;
    assert VMPlaced(s.vmCidr, t.networks, v.net);
  }

  /** The VMs on a network use addresses of its interior other than the gateway, and no other VM does. */
  lemma UsedInside(s: Setup, t: Tables, n: Network)
    requires Inv(s, t) && n in t.networks
    ensures UsedGuestIPs(t) * (Interior(n.cidr) - {n.gateway}) == GuestsOf(OnNetwork(t, n))
  {
    hide Inv, Interior;
    var on := OnNetwork(t, n);
    forall v | v in t.vms
      ensures v in on ==> v.net.guestIP in Interior(n.cidr) && v.net.guestIP != n.gateway
      ensures v.net.guestIP in Interior(n.cidr) ==> v in on
    {
      Placed(s, t, v);
      if v.net.mode == Routed {
        RoutedOutside(s, t, n, v);
      } else {
        SharedInside(s, t, n, v);
      }
    }
  }

  lemma HostFreeExists(n: Network, used: set<u32>)
    requires 1 <= n.cidr.ones <= 30 && Contains(n.cidr, n.gateway)
    ensures AllocateShared(n, used).Ok? <==> exists x :: x in Interior(n.cidr) - {n.gateway} && x !in used
    ensures AllocateShared(n, used).Ok? ==>
              var g := AllocateShared(n, used).value.guest;
              g in Interior(n.cidr) && g != n.gateway && g !in used
              && forall x: u32 :: First(n.cidr) < x < g ==> x == n.gateway || x in used
  {
    hide Contains, Low;
    SharedSizeFits(n.cidr);
    var r := LowestHost(n, used, 1);
    if x :| x in Interior(n.cidr) - {n.gateway} && x !in used {
      assert HostFree(n, used, x);
    }
    if r.Some? {
      assert HostFree(n, used, r.value);
      assert r.value in Interior(n.cidr) - {n.gateway};
      forall x: u32 | First(n.cidr) < x < r.value
        ensures x == n.gateway || x in used
      {
        assert !HostFree(n, used, x);
      }
    }
  }

  lemma WholeSpaceFails(n: Network, used: set<u32>)
    requires n.cidr.ones == 0
    ensures AllocateShared(n, used).Err?
  {
    SharedSizeFits(n.cidr);
  }

  /** allocateShared succeeds exactly while fewer than 2^(32-n) - 3 VMs are on a /n network, and takes the
      lowest address left; on a /0 its uint32 size is 0 and it always fails. */
  ghost predicate CapacityExact(t: Tables, n: Network) {
    var r, used := AllocateShared(n, UsedGuestIPs(t)), UsedGuestIPs(t);
    && (r.Ok? <==> n.cidr.ones >= 1 && |OnNetwork(t, n)| < Pow2(32 - n.cidr.ones) - 3)
    && (r.Ok? ==> r.value.guest in Interior(n.cidr) && r.value.guest != n.gateway && r.value.guest !in used)
    && (r.Ok? ==> forall x: u32 :: First(n.cidr) < x < r.value.guest ==> x == n.gateway || x in used)
  }

  lemma SharedCapacity(s: Setup, h: Host, calls: seq<Call>, n: Network)
    requires h.tables == EMPTY_TABLES
    requires n in Run(s, h, calls).tables.networks
    ensures CapacityExact(Run(s, h, calls).tables, n)
  {
    hide CapacityExact, Inv, Run;
    EmptyInv(s);
    RunKeepsInv(s, h, calls);
    CapacityOf(s, Run(s, h, calls).tables, n);
  }

  lemma CapacityOf(s: Setup, t: Tables, n: Network)
    requires Inv(s, t) && n in t.networks
    ensures CapacityExact(t, n)
  {
    hide Inv, Low, Pow2, AllocateShared, OnNetwork, Interior, UsedGuestIPs;
    NetworkUsable(s, t, n);
    var used, c := UsedGuestIPs(t), Interior(n.cidr) - {n.gateway};
    if n.cidr.ones >= 1 {
      HostFreeExists(n, used);
      UsedCount(s, t, n);
      SubsetFull(used * c, c);
    } else {
      WholeSpaceFails(n, used);
    }
  }

  lemma NetworkUsable(s: Setup, t: Tables, n: Network)
    requires Inv(s, t) && n in t.networks
    ensures n.cidr.ones <= 30 && Contains(n.cidr, n.gateway) && First(n.cidr) < n.gateway < Last(n.cidr)
  {
    assert NetworkPlaced(s.vmCidr, n);
    ContainsIffInRange(n.cidr, n.gateway);
  }

  lemma UsedCount(s: Setup, t: Tables, n: Network)
    requires Inv(s, t) && n in t.networks
    ensures var c := Interior(n.cidr) - {n.gateway};
            |UsedGuestIPs(t) * c| == |OnNetwork(t, n)| && |c| == Pow2(32 - n.cidr.ones) - 3
  {
    hide Pow2, Low;
    NetworkUsable(s, t, n);
    UsedInside(s, t, n);
    InteriorSize(n.cidr);
    DistinctFilter(t.vms, (v: VM) => v.net.mode == Shared && v.net.networkId == n.id);
    GuestCount(OnNetwork(t, n));
  }

  lemma InteriorSize(c: IPNet)
    requires c.ones <= 30
    ensures |Interior(c)| == Size(c) - 2
  {
    Pow2Monotone(2, 32 - c.ones);
    Pow2Values();
    SpanSize(First(c) + 1, Last(c));
  }

  // ---------------------------------------------------------------------------------------------
  // Routed /30 blocks

  function RoutedVMs(t: Tables): seq<VM> {
    Filter(t.vms, (v: VM) => v.net.mode == Routed)
  }

  /** How many /30 blocks the networks cover. */
  function NetworkBlocks(networks: seq<Network>): nat {
    if networks == [] then 0 else Size(networks[0].cidr) / 4 + NetworkBlocks(networks[1..])
  }

  function BlockIndex(vmCidr: IPNet, ip: u32): int {
    (ip - vmCidr.ip) / 4
  }

  function Indices(lo: int, hi: int): set<int> {
    set k | lo <= k < hi && Between(lo, k, hi)
  }

  lemma {:induction false} IndicesSize(lo: int, hi: int)
    requires lo <= hi
    ensures |Indices(lo, hi)| == hi - lo
    decreases hi - lo
  {
    if lo == hi {
      assert Indices(lo, hi) == {};
    } else {
      IndicesSize(lo, hi - 1);
      assert Indices(lo, hi) == Indices(lo, hi - 1) + {hi - 1};
    }
  }

  /** The blocks of vm_cidr that a network covers. */
  function NetworkIndices(vmCidr: IPNet, n: Network): set<int> {
    Indices(BlockIndex(vmCidr, n.cidr.ip), BlockIndex(vmCidr, n.cidr.ip) + Size(n.cidr) / 4)
  }

  function AllNetworkIndices(vmCidr: IPNet, networks: seq<Network>): set<int> {
    if networks == [] then {}
    else NetworkIndices(vmCidr, networks[0]) + AllNetworkIndices(vmCidr, networks[1..])
  }

  function RoutedIndices(vmCidr: IPNet, vms: seq<VM>): set<int> {
    set v | v in vms :: BlockIndex(vmCidr, v.net.guestIP)
  }

  /** A block of at least four addresses inside vm_cidr starts at a multiple of four from its start. */
  lemma Aligned(vmCidr: IPNet, c: IPNet)
    requires vmCidr.ones <= 30 && c.ones <= 30 && CidrWithin(vmCidr, c)
    ensures c.ip == vmCidr.ip + 4 * BlockIndex(vmCidr, c.ip) && BlockIndex(vmCidr, c.ip) >= 0
    ensures Size(c) == 4 * (Size(c) / 4)
    ensures 4 * BlockIndex(vmCidr, c.ip) + Size(c) <= Size(vmCidr)
  {
    hide Low, CidrWithin;
    WithinMeansInclusion(vmCidr, c);
    LowFewer(vmCidr.ip, 2, 32 - vmCidr.ones);
    LowFewer(c.ip, 2, 32 - c.ones);
    LowTwo(vmCidr.ip);
    LowTwo(c.ip);
    FourTimes(c);
  }

  lemma FourTimes(c: IPNet)
    requires c.ones <= 30
    ensures Size(c) == 4 * Pow2(30 - c.ones) && Size(c) / 4 == Pow2(30 - c.ones)
  {
    var k := 30 - c.ones;
    assert Pow2(k + 2) == 2 * Pow2(k + 1);
  }

  lemma NetworkCovers(vmCidr: IPNet, n: Network, k: nat)
    requires 1 <= vmCidr.ones <= 30 && NetworkPlaced(vmCidr, n) && k < P2PCount(vmCidr)
    ensures CidrOverlaps(P2PBlock(vmCidr, k), n.cidr) <==> k in NetworkIndices(vmCidr, n)
  {
    hide Low, Pow2, CidrWithin;
    Pow2Values();
    Aligned(vmCidr, n.cidr);
  }

  lemma NetworksCover(vmCidr: IPNet, n: Network)
    requires 1 <= vmCidr.ones <= 30 && NetworkPlaced(vmCidr, n)
    ensures forall k :: k in NetworkIndices(vmCidr, n) ==> 0 <= k < P2PCount(vmCidr)
  {
    hide Low, Pow2, CidrWithin;
    Aligned(vmCidr, n.cidr);
  }

  lemma {:induction false} AllNetworksMembers(vmCidr: IPNet, networks: seq<Network>, k: int)
    ensures k in AllNetworkIndices(vmCidr, networks) <==> exists n :: n in networks && k in NetworkIndices(vmCidr, n)
  {
    hide NetworkIndices;
    if networks != [] {
      AllNetworksMembers(vmCidr, networks[1..], k);
      if n :| n in networks && k in NetworkIndices(vmCidr, n) && n != networks[0] {
        assert n in networks[1..];
      }
    }
  }

  lemma {:induction false} NetworksCount(vmCidr: IPNet, networks: seq<Network>)
    requires 1 <= vmCidr.ones <= 30 && NetworksApart(networks) && forall n :: n in networks ==> NetworkPlaced(vmCidr, n)
    ensures |AllNetworkIndices(vmCidr, networks)| == NetworkBlocks(networks)
  {
    hide NetworkIndices, NetworkPlaced, CidrOverlaps, Size;
    if networks != [] {
      var n, rest := networks[0], networks[1..];
      NetworksCount(vmCidr, rest);
      forall k | k in NetworkIndices(vmCidr, n)
        ensures k !in AllNetworkIndices(vmCidr, rest)
      {
        AllNetworksMembers(vmCidr, rest, k);
        if m :| m in rest && k in NetworkIndices(vmCidr, m) {
          NetworksMeet(vmCidr, n, m, k);
        }
      }
      assert NetworkIndices(vmCidr, n) !! AllNetworkIndices(vmCidr, rest);
      NetworkIndicesSize(vmCidr, n);
    }
  }

  lemma NetworkIndicesSize(vmCidr: IPNet, n: Network)
    ensures |NetworkIndices(vmCidr, n)| == Size(n.cidr) / 4
  {
    hide Pow2;
    IndicesSize(BlockIndex(vmCidr, n.cidr.ip), BlockIndex(vmCidr, n.cidr.ip) + Size(n.cidr) / 4);
  }

  lemma NetworksMeet(vmCidr: IPNet, n: Network, m: Network, k: int)
    requires 1 <= vmCidr.ones <= 30 && NetworkPlaced(vmCidr, n) && NetworkPlaced(vmCidr, m)
    requires k in NetworkIndices(vmCidr, n) && k in NetworkIndices(vmCidr, m)
    ensures CidrOverlaps(n.cidr, m.cidr)
  {
    hide Low, Pow2, CidrWithin;
    Aligned(vmCidr, n.cidr);
    Aligned(vmCidr, m.cidr);
  }

  /** A routed VM owns exactly one block, by its guest address. */
  lemma RoutedOwns(vmCidr: IPNet, a: Address)
    requires 1 <= vmCidr.ones <= 30 && RoutedPlaced(vmCidr, a)
    ensures var k := BlockIndex(vmCidr, a.guestIP);
            0 <= k < P2PCount(vmCidr) && a.guestIP == vmCidr.ip + 4 * k + 2
            && RoutedRange(a).value == P2PBlock(vmCidr, k)
  {
    hide Low, Pow2, CidrWithin;
    Pow2Values();
    Aligned(vmCidr, RoutedRange(a).value);
  }

  lemma {:induction false} RoutedCount(vmCidr: IPNet, vms: seq<VM>)
    requires 1 <= vmCidr.ones <= 30 && Distinct(vms) && forall v :: v in vms ==> RoutedPlaced(vmCidr, v.net)
    ensures |RoutedIndices(vmCidr, vms)| == |vms|
  {
    hide RoutedPlaced, BlockIndex;
    if vms == [] {
    } else {
      RoutedCount(vmCidr, vms[1..]);
      assert RoutedIndices(vmCidr, vms) == {BlockIndex(vmCidr, vms[0].net.guestIP)} + RoutedIndices(vmCidr, vms[1..]);
      RoutedOwns(vmCidr, vms[0].net);
      forall w | w in vms[1..]
        ensures BlockIndex(vmCidr, w.net.guestIP) != BlockIndex(vmCidr, vms[0].net.guestIP)
      {
        assert !Clash(vms[0], w);
        RoutedOwns(vmCidr, w.net);
      }
    }
  }

  function Taken(s: Setup, t: Tables): set<int>
    requires 1 <= s.vmCidr.ones <= 30
  {
    set k | 0 <= k < P2PCount(s.vmCidr) && !BlockFree(P2PBlock(s.vmCidr, k), UsedGuestIPs(t), NetworkCidrs(t))
  }

  lemma CidrsOfNetworks(t: Tables, b: IPNet)
    ensures (forall c :: c in NetworkCidrs(t) ==> !CidrOverlaps(b, c)) <==>
            forall n :: n in t.networks ==> !CidrOverlaps(b, n.cidr)
  {
    forall n | n in t.networks
      ensures n.cidr in NetworkCidrs(t)
    {
      var i :| 0 <= i < |t.networks| && t.networks[i] == n;
      assert NetworkCidrs(t)[i] == n.cidr;
    }
    forall c | c in NetworkCidrs(t)
      ensures exists n :: n in t.networks && n.cidr == c
    {
      var i :| 0 <= i < |NetworkCidrs(t)| && NetworkCidrs(t)[i] == c;
      assert t.networks[i] in t.networks;
    }
  }

  /** A block is taken exactly by a routed VM of its own or by a network over it. */
  lemma BlockTaken(s: Setup, t: Tables, k: nat)
    requires 1 <= s.vmCidr.ones <= 30 && Inv(s, t) && k < P2PCount(s.vmCidr)
    ensures !BlockFree(P2PBlock(s.vmCidr, k), UsedGuestIPs(t), NetworkCidrs(t)) <==>
            k in RoutedIndices(s.vmCidr, RoutedVMs(t)) || k in AllNetworkIndices(s.vmCidr, t.networks)
  {
    hide Inv, NetworkIndices, BlockIndex, CidrOverlaps, P2PCount;
    var b := P2PBlock(s.vmCidr, k);
    CidrsOfNetworks(t, b);
    AllNetworksMembers(s.vmCidr, t.networks, k);
    forall n | n in t.networks
      ensures CidrOverlaps(b, n.cidr) <==> k in NetworkIndices(s.vmCidr, n)
    {
      PlacedNetwork(s, t, n);
      NetworkCovers(s.vmCidr, n, k);
    }
    forall v | v in t.vms
      ensures v.net.mode == Routed ==> (v.net.guestIP == b.ip + 2 <==> BlockIndex(s.vmCidr, v.net.guestIP) == k)
      ensures v.net.mode != Routed && v.net.guestIP == b.ip + 2 ==>
                exists n :: n in t.networks && CidrOverlaps(b, n.cidr)
    {
      GuestBlock(s, t, v, k);
    }
  }

  lemma PlacedNetwork(s: Setup, t: Tables, n: Network)
    requires Inv(s, t) && n in t.networks
    ensures NetworkPlaced(s.vmCidr, n)
  {
    hide NetworkPlaced;
  }

  lemma GuestBlock(s: Setup, t: Tables, v: VM, k: nat)
    requires 1 <= s.vmCidr.ones <= 30 && Inv(s, t) && v in t.vms && k < P2PCount(s.vmCidr)
    ensures var b := P2PBlock(s.vmCidr, k);
            if v.net.mode == Routed then v.net.guestIP == b.ip + 2 <==> BlockIndex(s.vmCidr, v.net.guestIP) == k
            else v.net.guestIP == b.ip + 2 ==> exists n :: n in t.networks && CidrOverlaps(b, n.cidr)
  {
    hide CidrWithin, PortPlan, RefPlan, NetworksApart, Distinct, RoutedRange;
    assert VMPlaced(s.vmCidr, t.networks, v.net);
    if v.net.mode == Routed {
      RoutedOwns(s.vmCidr, v.net);
    } else {
      var n :| n in t.networks && SharedPlaced(n, v.net);
      Pow2Values();
    }
  }

  lemma RoutedOffNetworks(s: Setup, t: Tables, v: VM)
    requires 1 <= s.vmCidr.ones <= 30 && Inv(s, t) && v in t.vms && v.net.mode == Routed
    ensures RoutedPlaced(s.vmCidr, v.net)
    ensures BlockIndex(s.vmCidr, v.net.guestIP) !in AllNetworkIndices(s.vmCidr, t.networks)
  {
    hide CidrWithin, CidrOverlaps, PortPlan, RefPlan, NetworksApart, Distinct, RoutedRange,
         NetworkIndices, NetworkPlaced;
    assert VMPlaced(s.vmCidr, t.networks, v.net);
    RoutedOwns(s.vmCidr, v.net);
    var k := BlockIndex(s.vmCidr, v.net.guestIP);
    AllNetworksMembers(s.vmCidr, t.networks, k);
    if n :| n in t.networks && k in NetworkIndices(s.vmCidr, n) {
      NetworkCovers(s.vmCidr, n, k);
    }
  }

  lemma RoutedInRange(s: Setup, t: Tables, k: int)
    requires 1 <= s.vmCidr.ones <= 30 && Inv(s, t) && k in RoutedIndices(s.vmCidr, RoutedVMs(t))
    ensures 0 <= k < P2PCount(s.vmCidr) && k !in AllNetworkIndices(s.vmCidr, t.networks)
  {
    hide Inv, BlockIndex, RoutedPlaced, P2PCount, AllNetworkIndices;
    var v :| v in RoutedVMs(t) && k == BlockIndex(s.vmCidr, v.net.guestIP);
    RoutedOffNetworks(s, t, v);
    RoutedOwns(s.vmCidr, v.net);
  }

  lemma NetworksInRange(s: Setup, t: Tables, k: int)
    requires 1 <= s.vmCidr.ones <= 30 && Inv(s, t) && k in AllNetworkIndices(s.vmCidr, t.networks)
    ensures 0 <= k < P2PCount(s.vmCidr)
  {
    hide Inv, NetworkIndices, NetworkPlaced, P2PCount;
    AllNetworksMembers(s.vmCidr, t.networks, k);
    var n :| n in t.networks && k in NetworkIndices(s.vmCidr, n);
    PlacedNetwork(s, t, n);
    NetworksCover(s.vmCidr, n);
  }

  lemma TakenIs(s: Setup, t: Tables)
    requires 1 <= s.vmCidr.ones <= 30 && Inv(s, t)
    ensures var routed, nets := RoutedIndices(s.vmCidr, RoutedVMs(t)), AllNetworkIndices(s.vmCidr, t.networks);
            Taken(s, t) == routed + nets && routed !! nets
  {
    hide Inv, BlockFree, RoutedIndices, AllNetworkIndices, P2PCount, P2PBlock;
    var routed, nets := RoutedIndices(s.vmCidr, RoutedVMs(t)), AllNetworkIndices(s.vmCidr, t.networks);
    forall k | k in routed
      ensures 0 <= k < P2PCount(s.vmCidr) && k !in nets
    {
      RoutedInRange(s, t, k);
    }
    forall k | k in nets
      ensures 0 <= k < P2PCount(s.vmCidr)
    {
      NetworksInRange(s, t, k);
    }
    forall k | 0 <= k < P2PCount(s.vmCidr)
      ensures k in Taken(s, t) <==> k in routed || k in nets
    {
      BlockTaken(s, t, k);
    }
  }

  lemma PlanOfInv(s: Setup, t: Tables)
    requires Inv(s, t)
    ensures Distinct(t.vms) && NetworksApart(t.networks) && forall n :: n in t.networks ==> NetworkPlaced(s.vmCidr, n)
  {
    hide Distinct, NetworksApart, NetworkPlaced, VMPlaced, PortPlan, RefPlan;
  }

  lemma TakenCount(s: Setup, t: Tables)
    requires 1 <= s.vmCidr.ones <= 30 && Inv(s, t)
    ensures |Taken(s, t)| == |RoutedVMs(t)| + NetworkBlocks(t.networks)
  {
    hide Inv, Taken, RoutedIndices, AllNetworkIndices, RoutedPlaced, NetworkPlaced, Distinct,
         NetworksApart, NetworkBlocks;
    TakenIs(s, t);
    PlanOfInv(s, t);
    forall v | v in RoutedVMs(t)
      ensures RoutedPlaced(s.vmCidr, v.net)
    {
      RoutedOffNetworks(s, t, v);
    }
    DistinctFilter(t.vms, (v: VM) => v.net.mode == Routed);
    RoutedCount(s.vmCidr, RoutedVMs(t));
    NetworksCount(s.vmCidr, t.networks);
  }

  /** allocateP2P succeeds exactly while the routed VMs and the /30 blocks under shared networks are fewer than the /30
      blocks of vm_cidr. */
  lemma P2PCapacity(s: Setup, h: Host, calls: seq<Call>)
    requires h.tables == EMPTY_TABLES && 1 <= s.vmCidr.ones <= 30
    ensures var t := Run(s, h, calls).tables;
            AllocateP2P(s.vmCidr, UsedGuestIPs(t), NetworkCidrs(t)).Ok? <==>
            |RoutedVMs(t)| + NetworkBlocks(t.networks) < Pow2(30 - s.vmCidr.ones)
  {
    hide Inv, Run, Pow2, BlockFree, RoutedVMs, NetworkBlocks;
    EmptyInv(s);
    RunKeepsInv(s, h, calls);
    var t := Run(s, h, calls).tables;
    TakenCount(s, t);
    IndicesSize(0, P2PCount(s.vmCidr));
    var all := Indices(0, P2PCount(s.vmCidr));
    SubsetFull(Taken(s, t), all);
    var r := LowestBlock(s.vmCidr, UsedGuestIPs(t), NetworkCidrs(t), 0);
    if r.Some? {
      assert r.value in all && r.value !in Taken(s, t);
    } else {
      assert forall k :: k in all ==> k in Taken(s, t);
    }
  }
}
