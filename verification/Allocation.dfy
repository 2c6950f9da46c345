/** Address and port allocation (internal/lifecycle/service.go): allocateP2P, allocateShared, allocatePort,
    validateSharedNetwork and the overlap check they share with StartVM. */
module Allocation {
  import opened Cidr
  import opened Model
  import opened Database

  // ---------------------------------------------------------------------------------------------
  // Ranges that the registry owns

  /** vmRoutedCIDR: the block of a routed row, None for a row the overlap check skips. */
  function RoutedRange(a: Address): (r: Option<IPNet>)
    ensures r.Some? <==> (a.mode == Routed || a.mode == UnsetNetwork) && a.hostIP.Some? && 1 <= a.prefix <= 32
    ensures r.Some? ==> r.value.ones == a.prefix && InRange(r.value, a.hostIP.value)
  {
    if a.mode != UnsetNetwork && a.mode != Routed then None
    else if a.hostIP.None? || a.prefix <= 0 || a.prefix > 32 then None
    else Some(MaskedBlock(a.hostIP.value, a.prefix))
  }

  predicate NetworkMeets(n: Network, candidate: IPNet, ignoreId: Id) {
    !(n.id != "" && n.id == ignoreId) && CidrOverlaps(candidate, n.cidr)
  }

  predicate VMMeets(v: VM, candidate: IPNet, ignoreId: Id) {
    !(v.id != "" && v.id == ignoreId) && RoutedRange(v.net).Some? && CidrOverlaps(candidate, RoutedRange(v.net).value)
  }

  /** findCIDROverlap over one reading of the networks and one of the VMs. */
  predicate OverlapFound(networks: seq<Network>, vms: seq<VM>, candidate: IPNet, ignoreId: Id) {
    (exists n :: n in networks && NetworkMeets(n, candidate, ignoreId))
    || (exists v :: v in vms && VMMeets(v, candidate, ignoreId))
  }

  datatype Owner = NetworkOwner(network: Network) | VMOwner(vm: VM)

  /** networkCIDROwners followed by the search of findCIDROverlap: networks first, then VMs. */
  method FindCIDROverlap(t: Tables, candidate: IPNet, ignoreId: Id) returns (r: Option<Owner>)
    ensures r.Some? <==> OverlapFound(t.networks, t.vms, candidate, ignoreId)
    ensures r.Some? && r.value.NetworkOwner? ==>
              r.value.network in t.networks && NetworkMeets(r.value.network, candidate, ignoreId)
    ensures r.Some? && r.value.VMOwner? ==>
              r.value.vm in t.vms && VMMeets(r.value.vm, candidate, ignoreId)
              && forall n :: n in t.networks ==> !NetworkMeets(n, candidate, ignoreId)
  {
    for i := 0 to |t.networks|
      invariant forall n :: n in t.networks[..i] ==> !NetworkMeets(n, candidate, ignoreId)
    {
      if NetworkMeets(t.networks[i], candidate, ignoreId) {
        return Some(NetworkOwner(t.networks[i]));
      }
    }
    for i := 0 to |t.vms|
      invariant forall v :: v in t.vms[..i] ==> !VMMeets(v, candidate, ignoreId)
    {
      if VMMeets(t.vms[i], candidate, ignoreId) {
        return Some(VMOwner(t.vms[i]));
      }
    }
    return None;
  }

  /** ensureVMNetworkUsable over one reading of the registry. */
  function EnsureVMNetworkUsable(t: Tables, vm: VM): Result<()> {
    match vm.net.mode
    case Shared =>
      (match GetNetwork(t, vm.net.networkId)
       case None => Err(NotFound)
       case Some(n) => if OverlapFound(t.networks, t.vms, n.cidr, n.id) then Err(Conflict) else Ok(()))
    case OtherNetwork => Ok(())
    case _ =>
      if RoutedRange(vm.net).Some? && OverlapFound(t.networks, t.vms, RoutedRange(vm.net).value, vm.id)
      then Err(Conflict) else Ok(())
  }

  // ---------------------------------------------------------------------------------------------
  // Routed /30 blocks

  datatype Lease = Lease(host: u32, guest: u32, prefix: int)

  /** How many blocks the loop of allocateP2P can visit: `uint32(1) << 32` is 0, so none for a /0. */
  function P2PCount(vmCidr: IPNet): (c: nat)
    requires vmCidr.ones <= 30
    ensures 4 * c == ShiftedOne32(32 - vmCidr.ones)
  {
    if vmCidr.ones == 0 then 0
    else
      var k := 30 - vmCidr.ones;
      assert Pow2(k + 2) == 2 * Pow2(k + 1);
      Pow2(k)
  }

  lemma LowTwo(x: nat)
    ensures Low(x, 2) == x % 4
  {
    assert Low(x, 2) == 2 * Low(x / 2, 1) + x % 2;
    assert Low(x / 2, 1) == 2 * Low(x / 2 / 2, 0) + x / 2 % 2;
  }

  lemma BlockFits(vmCidr: IPNet, k: nat)
    requires vmCidr.ones <= 30 && k < P2PCount(vmCidr)
    ensures 0 <= vmCidr.ip + 4 * k && vmCidr.ip + 4 * k + 4 <= vmCidr.ip + Size(vmCidr) <= 0x1_0000_0000
    ensures Low(vmCidr.ip + 4 * k, 2) == 0
  {
    hide Low, Pow2;
    LastInRange(vmCidr);
    LowFewer(vmCidr.ip, 2, 32 - vmCidr.ones);
    LowTwo(vmCidr.ip);
    LowTwo(vmCidr.ip + 4 * k);
  }

  /** The k-th aligned /30 of vm_cidr. */
  function P2PBlock(vmCidr: IPNet, k: nat): (b: IPNet)
    requires vmCidr.ones <= 30 && k < P2PCount(vmCidr)
    ensures b.ip == vmCidr.ip + 4 * k && b.ones == 30
    ensures b.ip + 4 <= vmCidr.ip + Size(vmCidr) <= 0x1_0000_0000
  {
    BlockFits(vmCidr, k);
    Block(vmCidr.ip + 4 * k, 30)
  }

  /** The test of the loop body: the block's guest address is unused and no shared network meets it. */
  predicate BlockFree(b: IPNet, used: set<u32>, shared: seq<IPNet>)
    requires b.ones == 30
  {
    (b.ip + 2) !in used && forall n :: n in shared ==> !CidrOverlaps(b, n)
  }

  function LowestBlock(vmCidr: IPNet, used: set<u32>, shared: seq<IPNet>, k: nat): (r: Option<nat>)
    requires vmCidr.ones <= 30 && k <= P2PCount(vmCidr)
    ensures r.Some? ==> k <= r.value < P2PCount(vmCidr) && BlockFree(P2PBlock(vmCidr, r.value), used, shared)
    ensures forall j :: k <= j < (if r.Some? then r.value else P2PCount(vmCidr)) ==>
                          !BlockFree(P2PBlock(vmCidr, j), used, shared)
    decreases P2PCount(vmCidr) - k
  {
    if k == P2PCount(vmCidr) then None
    else if BlockFree(P2PBlock(vmCidr, k), used, shared) then Some(k)
    else LowestBlock(vmCidr, used, shared, k + 1)
  }

  function AllocateP2P(vmCidr: IPNet, used: set<u32>, shared: seq<IPNet>): (r: Result<Lease>)
    ensures r.Err? ==> r.code == Internal
  {
    if vmCidr.ones > 30 then Err(Internal)
    else match LowestBlock(vmCidr, used, shared, 0)
      case None => Err(Internal)
      case Some(k) => var b := P2PBlock(vmCidr, k); Ok(Lease(b.ip + 1, b.ip + 2, 30))
  }

  /** The loop of allocateP2P in wrapping uint32 arithmetic. No addition in it wraps: it visits every
      block of vm_cidr in order. */
  method AllocateP2PLoop(vmCidr: IPNet, used: set<u32>, shared: seq<IPNet>) returns (r: Result<Lease>)
    ensures r == AllocateP2P(vmCidr, used, shared)
  {
    hide Low, Pow2, CidrOverlaps, P2PCount, ShiftedOne32, P2PBlock, Add32, LowestBlock, BlockFree;
    if vmCidr.ones > 30 {
      return Err(Internal);
    }
    var start: u32 := vmCidr.ip;
    var size := ShiftedOne32(32 - vmCidr.ones);
    var offset: u32 := 0;
    ghost var k := 0;
    OffsetFits(vmCidr, 0);
    while Add32(offset, 3) < size
      invariant offset == 4 * k && k <= P2PCount(vmCidr) && Add32(offset, 3) == 4 * k + 3
      invariant LowestBlock(vmCidr, used, shared, 0) == LowestBlock(vmCidr, used, shared, k)
      decreases P2PCount(vmCidr) - k
    {
      assert k < P2PCount(vmCidr);
      OffsetFits(vmCidr, k + 1);
      LowestStep(vmCidr, used, shared, k);
      ghost var b := P2PBlock(vmCidr, k);
      var base := Add32(start, offset);
      var host, guest := Add32(base, 1), Add32(base, 2);
      BlockAddresses(vmCidr, k);
      var free := guest !in used && forall n :: n in shared ==> !CidrOverlaps(Block(base, 30), n);
      FreeTest(b, used, shared);
      if free {
        return Ok(Lease(host, guest, 30));
      }
      offset, k := Add32(offset, 4), k + 1;
    }
    LowestEnd(vmCidr, used, shared);
    r := Err(Internal);
  }

  /** No addition on an offset wraps. */
  lemma OffsetFits(vmCidr: IPNet, k: nat)
    requires vmCidr.ones <= 30 && k <= P2PCount(vmCidr)
    ensures 4 * k + 3 < 0x1_0000_0000 && Add32(4 * k, 3) == 4 * k + 3
    ensures k > 0 ==> Add32(4 * (k - 1), 4) == 4 * k
  {
    hide Pow2;
    Pow2Values();
    if vmCidr.ones >= 1 {
      Pow2Monotone(32 - vmCidr.ones, 31);
      assert Pow2(32) == 2 * Pow2(31) by {
        Doubled(31);
      }
    }
  }

  lemma Doubled(k: nat)
    ensures Pow2(k + 1) == 2 * Pow2(k)
  {
  }

  /** Nor one on an address of the block. */
  lemma BlockAddresses(vmCidr: IPNet, k: nat)
    requires vmCidr.ones <= 30 && k < P2PCount(vmCidr)
    ensures var b := P2PBlock(vmCidr, k);
            4 * k < 0x1_0000_0000 && Add32(vmCidr.ip, 4 * k) == b.ip
            && Add32(b.ip, 1) == b.ip + 1 && Add32(b.ip, 2) == b.ip + 2 && Block(b.ip, 30) == b
  {
    hide Low, Pow2, P2PCount, ShiftedOne32;
    BlockFits(vmCidr, k);
  }

  lemma FreeTest(b: IPNet, used: set<u32>, shared: seq<IPNet>)
    requires b.ones == 30 && b.ip + 2 < 0x1_0000_0000
    ensures BlockFree(b, used, shared) <==> b.ip + 2 !in used && forall n :: n in shared ==> !CidrOverlaps(b, n)
  {
    hide CidrOverlaps;
  }

  lemma LowestStep(vmCidr: IPNet, used: set<u32>, shared: seq<IPNet>, k: nat)
    requires vmCidr.ones <= 30 && k < P2PCount(vmCidr)
    ensures LowestBlock(vmCidr, used, shared, k) ==
            if BlockFree(P2PBlock(vmCidr, k), used, shared) then Some(k)
            else LowestBlock(vmCidr, used, shared, k + 1)
  {
    hide P2PCount, P2PBlock, BlockFree;
  }

  lemma LowestEnd(vmCidr: IPNet, used: set<u32>, shared: seq<IPNet>)
    requires vmCidr.ones <= 30
    ensures LowestBlock(vmCidr, used, shared, P2PCount(vmCidr)) == None
  {
    hide P2PCount, P2PBlock, BlockFree;
  }

  /** Masking the first host address of a /30 gives the block back. */
  lemma MaskedHost(b: IPNet)
    requires b.ones == 30 && b.ip + 4 <= 0x1_0000_0000
    ensures MaskedBlock(b.ip, 30) == b && MaskedBlock(b.ip + 1, 30) == b
  {
    hide Low, Pow2, And, CIDRMask;
    MaskClears(b.ip, 30);
    MaskClears(b.ip + 1, 30);
    LowTwo(b.ip);
    LowTwo(b.ip + 1);
  }

  /** Completeness: apart from a /0, the allocator fails only when every aligned /30 of vm_cidr has a used
      guest address or meets a shared network, and it hands out the lowest one left. */
  lemma P2PComplete(vmCidr: IPNet, used: set<u32>, shared: seq<IPNet>)
    requires vmCidr.ones <= 30
    ensures AllocateP2P(vmCidr, used, shared).Ok? <==>
            vmCidr.ones >= 1 && exists b: IPNet :: b.ones == 30 && CidrWithin(vmCidr, b) && BlockFree(b, used, shared)
    ensures AllocateP2P(vmCidr, used, shared).Ok? ==>
              var l := AllocateP2P(vmCidr, used, shared).value;
              var own := MaskedBlock(l.host, 30);
              l.prefix == 30 && l.guest == l.host + 1 && own.ip == l.host - 1
              && CidrWithin(vmCidr, own) && BlockFree(own, used, shared)
              && forall b: IPNet | b.ones == 30 && CidrWithin(vmCidr, b) && BlockFree(b, used, shared) ::
                   l.host <= b.ip + 1
  {
    hide Low, Pow2, CidrWithin, CidrOverlaps;
    if AllocateP2P(vmCidr, used, shared).Ok? {
      var k := LowestBlock(vmCidr, used, shared, 0).value;
      MaskedHost(P2PBlock(vmCidr, k));
    }
    forall k | 0 <= k < P2PCount(vmCidr)
      ensures CidrWithin(vmCidr, P2PBlock(vmCidr, k))
    {
      P2PBlockWithin(vmCidr, k);
    }
    if vmCidr.ones >= 1 {
      forall b: IPNet | b.ones == 30 && CidrWithin(vmCidr, b)
        ensures exists k :: 0 <= k < P2PCount(vmCidr) && b == P2PBlock(vmCidr, k)
      {
        var k := P2PBlockIndex(vmCidr, b);
      }
    }
  }

  lemma FirstBlockExists(vmCidr: IPNet)
    requires 1 <= vmCidr.ones <= 30
    ensures P2PCount(vmCidr) > 0
  {
  }

  /** With nothing registered there is a lease to have. */
  lemma FirstLease(vmCidr: IPNet)
    requires 1 <= vmCidr.ones <= 30
    ensures AllocateP2P(vmCidr, {}, []).Ok?
  {
    hide CidrWithin, CidrOverlaps;
    FirstBlockExists(vmCidr);
    P2PBlockWithin(vmCidr, 0);
    assert BlockFree(P2PBlock(vmCidr, 0), {}, []);
    P2PComplete(vmCidr, {}, []);
  }

  lemma P2PBlockWithin(vmCidr: IPNet, k: nat)
    requires vmCidr.ones <= 30 && k < P2PCount(vmCidr)
    ensures CidrWithin(vmCidr, P2PBlock(vmCidr, k))
  {
    Pow2Values();
    WithinMeansInclusion(vmCidr, P2PBlock(vmCidr, k));
  }

  lemma P2PBlockIndex(vmCidr: IPNet, b: IPNet) returns (k: nat)
    requires 1 <= vmCidr.ones <= 30 && b.ones == 30 && CidrWithin(vmCidr, b)
    ensures k < P2PCount(vmCidr) && b == P2PBlock(vmCidr, k)
  {
    hide Low, Pow2;
    Pow2Values();
    WithinMeansInclusion(vmCidr, b);
    var lastParent, lastChild := Last(vmCidr), Last(b);
    assert b.ip + 4 <= vmCidr.ip + 4 * P2PCount(vmCidr);
    LowFewer(vmCidr.ip, 2, 32 - vmCidr.ones);
    LowTwo(vmCidr.ip);
    LowTwo(b.ip);
    k := Quarter(vmCidr.ip, b.ip);
  }

  lemma Quarter(x: nat, y: nat) returns (k: nat)
    requires x <= y && x % 4 == 0 && y % 4 == 0
    ensures y == x + 4 * k
  {
    k := (y - x) / 4;
  }

  // ---------------------------------------------------------------------------------------------
  // Host addresses of a shared network

  predicate HostFree(n: Network, used: set<u32>, x: int) {
    x != n.gateway && x !in used
  }

  /** The lowest free address among base+offset .. base+size-2, with the loop's own uint32 size. */
  function LowestHost(n: Network, used: set<u32>, offset: nat): (r: Option<u32>)
    requires n.cidr.ip + ShiftedOne32(32 - n.cidr.ones) <= 0x1_0000_0000
    ensures r.Some? ==> offset <= r.value - n.cidr.ip && r.value + 1 < n.cidr.ip + ShiftedOne32(32 - n.cidr.ones)
    ensures r.Some? ==> HostFree(n, used, r.value)
    ensures var end := if r.Some? then r.value else n.cidr.ip + ShiftedOne32(32 - n.cidr.ones) - 1;
            forall x :: n.cidr.ip + offset <= x < end ==> !HostFree(n, used, x)
    decreases ShiftedOne32(32 - n.cidr.ones) - offset
  {
    if offset + 1 >= ShiftedOne32(32 - n.cidr.ones) then None
    else if HostFree(n, used, n.cidr.ip + offset) then Some(n.cidr.ip + offset)
    else LowestHost(n, used, offset + 1)
  }

  lemma SharedSizeFits(c: IPNet)
    ensures c.ip + ShiftedOne32(32 - c.ones) <= 0x1_0000_0000
    ensures c.ones >= 1 ==> ShiftedOne32(32 - c.ones) == Size(c)
  {
    LastInRange(c);
  }

  function AllocateShared(n: Network, used: set<u32>): (r: Result<Lease>)
    ensures r.Err? ==> r.code == Internal
  {
    if n.cidr.ones > 30 || !Contains(n.cidr, n.gateway) then Err(Internal)
    else
      SharedSizeFits(n.cidr);
      match LowestHost(n, used, 1)
      case None => Err(Internal)
      case Some(x) => Ok(Lease(n.gateway, x, n.cidr.ones))
  }

  method AllocateSharedLoop(n: Network, used: set<u32>) returns (r: Result<Lease>)
    ensures r == AllocateShared(n, used)
  {
    hide Pow2, Low, Contains;
    if n.cidr.ones > 30 || !Contains(n.cidr, n.gateway) {
      return Err(Internal);
    }
    SharedSizeFits(n.cidr);
    var start: u32 := n.cidr.ip;
    var size := ShiftedOne32(32 - n.cidr.ones);
    var offset: u32 := 1;
    while Add32(offset, 1) < size
      invariant 1 <= offset && (offset == 1 || offset + 1 <= size)
      invariant LowestHost(n, used, 1) == LowestHost(n, used, offset)
      decreases size - offset
    {
      var guest := Add32(start, offset);
      if guest != n.gateway && guest !in used {
        return Ok(Lease(n.gateway, guest, n.cidr.ones));
      }
      offset := Add32(offset, 1);
    }
    r := Err(Internal);
  }

  // ---------------------------------------------------------------------------------------------
  // SSH ports

  function LowestPort(p: int, end: int, used: set<int>, open: set<int>): (r: Option<int>)
    ensures r.Some? ==> p <= r.value <= end && r.value !in used && r.value !in open
    ensures forall q :: p <= q <= end && (r.Some? ==> q < r.value) ==> q in used || q in open
    decreases end - p
  {
    if p > end then None
    else if p !in used && p !in open then Some(p)
    else LowestPort(p + 1, end, used, open)
  }

  /** allocatePort; `open` is what portOpen reports. */
  function AllocatePort(start: int, end: int, t: Tables, open: set<int>, requested: int): (r: Result<int>)
    ensures r.Ok? ==> start <= r.value <= end && r.value !in UsedSSHPorts(t) && r.value !in UsedIngressHostPorts(t)
                      && r.value !in open && (requested != 0 ==> r.value == requested)
    ensures requested == 0 && r.Ok? ==>
              forall p :: start <= p < r.value ==> p in UsedSSHPorts(t) || p in UsedIngressHostPorts(t) || p in open
    ensures requested != 0 ==>
              if requested < start || end < requested then r == Err(Invalid)
              else if requested in UsedSSHPorts(t) || requested in UsedIngressHostPorts(t) || requested in open
              then r == Err(Conflict) else r == Ok(requested)
    ensures requested == 0 && r.Err? ==>
              r == Err(Conflict)
              && forall p :: start <= p <= end ==> p in UsedSSHPorts(t) || p in UsedIngressHostPorts(t) || p in open
  {
    var used := UsedSSHPorts(t) + UsedIngressHostPorts(t);
    if requested != 0 then
      if requested < start || requested > end then Err(Invalid)
      else if requested in used || requested in open then Err(Conflict)
      else Ok(requested)
    else match LowestPort(start, end, used, open)
      case None => Err(Conflict)
      case Some(p) => Ok(p)
  }

  method AllocatePortLoop(start: int, end: int, t: Tables, open: set<int>, requested: int) returns (r: Result<int>)
    ensures r == AllocatePort(start, end, t, open, requested)
  {
    var used := UsedSSHPorts(t);
    used := used + UsedIngressHostPorts(t);
    if requested != 0 {
      if requested < start || requested > end {
        return Err(Invalid);
      }
      if requested in used || requested in open {
        return Err(Conflict);
      }
      return Ok(requested);
    }
    var p := start;
    while p <= end
      invariant LowestPort(start, end, used, open) == LowestPort(p, end, used, open)
      decreases end - p
    {
      if p !in used && p !in open {
        return Ok(p);
      }
      p := p + 1;
    }
    r := Err(Conflict);
  }

  // ---------------------------------------------------------------------------------------------
  // New shared networks

  /** A parsed "address/ones" text. */
  datatype CidrText = CidrText(ip: u32, ones: nat)

  /** validateSharedNetwork. `text` is None when the CIDR does not parse as IPv4; `gateway` is None when the
      gateway does not, and the first host address is taken instead. */
  function ValidateSharedNetwork(vmCidr: IPNet, t: Tables, text: Option<CidrText>, gateway: Option<u32>)
    : (r: Result<(IPNet, u32)>)
    ensures r.Ok? ==> r.value.0.ones <= 30 && CidrWithin(vmCidr, r.value.0)
                      && !OverlapFound(t.networks, t.vms, r.value.0, "")
                      && First(r.value.0) < r.value.1 < Last(r.value.0)
  {
    if text.None? || text.value.ones > 30 then Err(Invalid)
    else
      var c := MaskedBlock(text.value.ip, text.value.ones);
      if !CidrWithin(vmCidr, c) then Err(Invalid)
      else if OverlapFound(t.networks, t.vms, c, "") then Err(Conflict)
      else
        var size := ShiftedOne32(32 - c.ones);
        var g := if gateway.Some? then gateway.value else Add32(c.ip, 1);
        WithinLastAddress(c);
        ContainsIffInRange(c, g);
        if !Contains(c, g) || g == c.ip || g == Add32(Add32(c.ip, size), 0xffff_ffff) then Err(Invalid)
        else Ok((c, g))
  }
}
