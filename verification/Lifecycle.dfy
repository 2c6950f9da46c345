/** The lifecycle calls of internal/lifecycle/service.go as functions of the host's state: the registry and the
    installed nftables table. What the environment decides (commands that fail, ports that are open, processes
    that run) is an argument. */
module Lifecycle {
  import opened Cidr
  import opened Model
  import opened Database
  import opened Allocation
  import opened Firewall

  datatype Setup = Setup(vmCidr: IPNet, portStart: int, portEnd: int, defaultMode: NetworkMode, fw: Config)

  datatype Host = Host(tables: Tables, nft: Table)

  // ---------------------------------------------------------------------------------------------
  // CreateVM

  /** What random.Hex returns: never the empty text. */
  type NewId = id: Id | id != "" witness "0"

  /** `fieldsOk` stands for the checks of name, resources and user; `kernel` and `image` for what
      resolveKernelForVM and resolveBaseImageForVM return, with the error code when they refuse. */
  datatype CreateRequest = CreateRequest(
    fieldsOk: bool, id: NewId, name: string, sshPort: int, mode: NetworkMode, networkId: Id,
    egressMode: EgressMode, egressPolicyId: Id, sshKeyId: Id, extraKeys: bool,
    kernel: Result<Id>, image: Result<Id>, openPorts: set<int>, rootfsOk: bool)

  /** Interface names hold 15 characters. */
  function TapNameForID(id: Id): string {
    "tap-" + (if |id| > 11 then id[..11] else id)
  }

  predicate ValidIFName(name: string) {
    0 < |name| <= 15 && forall c :: c in name ==> c !in "/ \t\n\r"
  }

  function EgressChoice(t: Tables, mode: EgressMode, policyId: Id): Result<EgressMode> {
    if policyId != "" then
      (match GetEgressPolicy(t, policyId)
       case None => Err(NotFound)
       case Some(p) => Ok(p.mode))
    else if mode == UnsetEgress || mode == AllowAll then Ok(AllowAll)
    else if mode == DenyAll then Ok(DenyAll)
    else Err(Invalid)
  }

  function NetworkCidrs(t: Tables): (r: seq<IPNet>)
    ensures |r| == |t.networks| && forall i :: 0 <= i < |r| ==> r[i] == t.networks[i].cidr
  {
    seq(|t.networks|, i requires 0 <= i < |t.networks| => t.networks[i].cidr)
  }

  function AllocateNetwork(s: Setup, t: Tables, mode: NetworkMode, networkId: Id): Result<Lease> {
    match mode
    case Routed => AllocateP2P(s.vmCidr, UsedGuestIPs(t), NetworkCidrs(t))
    case Shared =>
      if networkId == "" then Err(Unprocessable)
      else
        (match GetNetwork(t, networkId)
         case None => Err(NotFound)
         case Some(n) =>
           if OverlapFound(t.networks, t.vms, n.cidr, n.id) then Err(Conflict)
           else AllocateShared(n, UsedGuestIPs(t)))
    case _ => Err(Internal)
  }

  /** Everything CreateVM decides before its insert. */
  function PlanVM(s: Setup, t: Tables, req: CreateRequest): Result<VM> {
    var _ :- Need(req.fieldsOk, Invalid);
    var mode := if req.mode == UnsetNetwork then s.defaultMode else req.mode;
    var _ :- Need(mode == Routed || mode == Shared, Invalid);
    var egress :- EgressChoice(t, req.egressMode, req.egressPolicyId);
    var _ :- Need(forall v :: v in t.vms ==> v.name != req.name, Conflict);
    var kernel :- req.kernel;
    var _ :- Need(kernel in t.kernels, NotFound);
    var image :- req.image;
    var _ :- Need(image in t.images, NotFound);
    var _ :- Need(req.sshKeyId != "" ==> req.sshKeyId in t.sshKeys, NotFound);
    var _ :- Need(req.sshKeyId == "" ==> req.extraKeys, Unprocessable);
    var port :- AllocatePort(s.portStart, s.portEnd, t, req.openPorts, req.sshPort);
    var lease :- AllocateNetwork(s, t, mode, req.networkId);
    var _ :- Need(req.rootfsOk, Internal);
    Ok(VM(req.id, req.name, Stopped, port, TapNameForID(req.id),
          Address(mode, Some(lease.host), lease.guest, lease.prefix, req.networkId),
          kernel, t.kernels[kernel], image, req.sshKeyId, egress, req.egressPolicyId))
  }

  function CreateVM(s: Setup, t: Tables, req: CreateRequest): (Tables, Result<VM>) {
    match PlanVM(s, t, req)
    case Err(e) => (t, Err(e))
    case Ok(vm) =>
      match InsertVM(t, vm)
      case None => (t, Err(Internal))
      case Some(u) => (u, Ok(vm))
  }

  // ---------------------------------------------------------------------------------------------
  // Rebuilding the firewall

  /** One run of applyNFT: `nftOk` is false when a command failed and left `wreck` installed. */
  datatype Nft = Nft(nftOk: bool, wreck: Table)

  function ApplyNFT(s: Setup, h: Host, nft: Nft): (Host, bool) {
    var c := Compile(s.fw, h.tables);
    if nft.nftOk && c.Some? then (h.(nft := c.value), true) else (h.(nft := nft.wreck), false)
  }

  /** UpdateVM with its error ignored. */
  function Put(t: Tables, vm: VM): Tables {
    match UpdateVM(t, vm)
    case None => t
    case Some(u) => u
  }

  // ---------------------------------------------------------------------------------------------
  // StartVM

  datatype StartEnv = StartEnv(processRunning: bool, tapOk: bool, nft: Nft, firecrackerOk: bool)

  function EnsureTapName(t: Tables, vm: VM): Result<(Tables, VM)> {
    if ValidIFName(vm.tapName) then Ok((t, vm))
    else if IsActive(vm) then Err(Internal)
    else
      var named := vm.(tapName := TapNameForID(vm.id));
      match UpdateVM(t, named)
      case None => Err(Internal)
      case Some(u) => Ok((u, named))
  }

  function FailVM(h: Host, vm: VM): Host {
    h.(tables := Put(h.tables, vm.(state := Error)))
  }

  /** From the `starting` write on. */
  function Launch(s: Setup, h: Host, vm: VM, env: StartEnv): (Host, Result<()>) {
    var starting := vm.(state := Starting);
    match UpdateVM(h.tables, starting)
    case None => (h, Err(Internal))
    case Some(t1) =>
      var h1 := h.(tables := t1);
      if !env.tapOk then (FailVM(h1, starting), Err(Internal))
      else
        var (h2, applied) := ApplyNFT(s, h1, env.nft);
        if !applied || !env.firecrackerOk then (FailVM(h2, starting), Err(Internal))
        else match UpdateVM(h2.tables, vm.(state := Running))
          case None => (h2, Err(Internal))
          case Some(t2) => (h2.(tables := t2), Ok(()))
  }

  /** Everything before the `starting` write; Ok(None) when the VM already runs. */
  function StartChecks(h: Host, id: Id, env: StartEnv): (Host, Result<Option<VM>>) {
    match GetVM(h.tables, id)
    case None => (h, Err(NotFound))
    case Some(row) =>
      match EnsureTapName(h.tables, row)
      case Err(e) => (h, Err(e))
      case Ok((t, vm)) =>
        match EnsureVMNetworkUsable(t, vm)
        case Err(e) => (h.(tables := t), Err(e))
        case Ok(_) => (h.(tables := t), Ok(if vm.state == Running && env.processRunning then None else Some(vm)))
  }

  function StartVM(s: Setup, h: Host, id: Id, env: StartEnv): (Host, Result<()>) {
    match StartChecks(h, id, env)
    case (h1, Err(e)) => (h1, Err(e))
    case (h1, Ok(None)) => (h1, Ok(()))
    case (h1, Ok(Some(vm))) => Launch(s, h1, vm, env)
  }

  // ---------------------------------------------------------------------------------------------
  // StopVM, DeleteVM, Reconcile

  function StopVM(s: Setup, h: Host, id: Id, cleanupOk: bool, nft: Nft): (Host, Result<()>) {
    match GetVM(h.tables, id)
    case None => (h, Err(NotFound))
    case Some(row) =>
      var t1 := Put(h.tables, row.(state := Stopping));
      match UpdateVM(t1, row.(state := Stopped))
      case None => (h.(tables := t1), Err(Internal))
      case Some(t2) =>
        var (h2, applied) := ApplyNFT(s, h.(tables := t2), nft);
        (h2, if applied && cleanupOk then Ok(()) else Err(Internal))
  }

  function DeleteVMCall(s: Setup, h: Host, id: Id, cleanupOk: bool, nft: Nft): (Host, Result<()>) {
    var (h1, r) := StopVM(s, h, id, cleanupOk, nft);
    if r.Err? then (h1, r) else (h1.(tables := DeleteVM(h1.tables, id)), Ok(()))
  }

  predicate MaybeRunning(vm: VM) {
    vm.state == Running || vm.state == Starting || vm.state == Stopping
  }

  /** The loop of Reconcile over the rows it listed; `alive` is what processRunning reports. The flag is false when a
      row could not be written and the loop stopped there. */
  function ReconcileRows(t: Tables, rows: seq<VM>, alive: set<Id>): (Tables, bool)
    decreases |rows|
  {
    if rows == [] then (t, true)
    else if MaybeRunning(rows[0]) && rows[0].id !in alive then
      match UpdateVM(t, rows[0].(state := Stopped))
      case None => (t, false)
      case Some(u) => ReconcileRows(u, rows[1..], alive)
    else ReconcileRows(t, rows[1..], alive)
  }

  function Reconcile(s: Setup, h: Host, alive: set<Id>, nft: Nft): Host {
    var (t, written) := ReconcileRows(h.tables, h.tables.vms, alive);
    if written && exists v :: v in h.tables.vms && MaybeRunning(v) then ApplyNFT(s, h.(tables := t), nft).0
    else h.(tables := t)
  }

  // ---------------------------------------------------------------------------------------------
  // Policies, ingress rules, networks

  function RebuildIfActive(s: Setup, h: Host, vm: VM, nft: Nft): (Host, Result<()>) {
    if !IsActive(vm) then (h, Ok(()))
    else
      var (h1, applied) := ApplyNFT(s, h, nft);
      (h1, if applied then Ok(()) else Err(Internal))
  }

  function SetVMEgressPolicy(s: Setup, h: Host, id: Id, mode: EgressMode, policyId: Id, nft: Nft): (Host, Result<()>) {
    match GetVM(h.tables, id)
    case None => (h, Err(NotFound))
    case Some(row) =>
      match EgressChoice(h.tables, mode, policyId)
      case Err(e) => (h, Err(e))
      case Ok(m) =>
        var vm := row.(egressMode := m, egressPolicyId := policyId);
        match UpdateVM(h.tables, vm)
        case None => (h, Err(Internal))
        case Some(t) => RebuildIfActive(s, h.(tables := t), vm, nft)
  }

  /** `protocol` is None for a text other than tcp and udp. */
  function AddIngressRule(s: Setup, h: Host, vmId: Id, ruleId: Id, protocol: Option<Protocol>, hostPort: int,
                          guestPort: int, open: set<int>, nft: Nft): (Host, Result<()>)
  {
    match GetVM(h.tables, vmId)
    case None => (h, Err(NotFound))
    case Some(vm) =>
      if protocol.None? || !(1 <= hostPort <= 65535) || !(1 <= guestPort <= 65535) then (h, Err(Invalid))
      else if hostPort in UsedSSHPorts(h.tables) || hostPort in open then (h, Err(Conflict))
      else match InsertIngressRule(h.tables, IngressRule(ruleId, vmId, protocol.value, hostPort, guestPort))
        case None => (h, Err(Internal))
        case Some(t) => RebuildIfActive(s, h.(tables := t), vm, nft)
  }

  function DeleteIngressRuleCall(s: Setup, h: Host, vmId: Id, ruleId: Id, nft: Nft): (Host, Result<()>) {
    match GetVM(h.tables, vmId)
    case None => (h, Err(NotFound))
    case Some(vm) => RebuildIfActive(s, h.(tables := DeleteIngressRule(h.tables, vmId, ruleId)), vm, nft)
  }

  function CreateNetwork(s: Setup, t: Tables, nameOk: bool, id: Id, name: string, text: Option<CidrText>,
                         gateway: Option<u32>): (Tables, Result<Network>)
  {
    if !nameOk then (t, Err(Invalid))
    else match ValidateSharedNetwork(s.vmCidr, t, text, gateway)
      case Err(e) => (t, Err(e))
      case Ok((c, g)) =>
        match InsertNetwork(t, Network(id, name, c, g))
        case None => (t, Err(Internal))
        case Some(u) => (u, Ok(Network(id, name, c, g)))
  }

  /** `cleanupOk` is false when the bridge of the deleted network could not be removed. */
  function DeleteNetworkCall(t: Tables, id: Id, cleanupOk: bool): (Tables, Result<()>) {
    if GetNetwork(t, id).None? then (t, Err(NotFound))
    else match DeleteNetwork(t, id)
      case None => (t, Err(Internal))
      case Some(u) => (u, if cleanupOk then Ok(()) else Err(Internal))
  }

  /** `p` carries the normalised lists; modes other than restricted store none. */
  function CreateEgressPolicy(t: Tables, p: EgressPolicy): (Tables, Result<()>) {
    var stored := if p.mode == Restricted then p else p.(tcpPorts := [], udpPorts := [], cidrs := []);
    if p.mode != AllowAll && p.mode != DenyAll && p.mode != Restricted then (t, Err(Internal))
    else if p.mode == Restricted && p.tcpPorts == [] && p.udpPorts == [] && p.cidrs == [] then (t, Err(Internal))
    else match InsertEgressPolicy(t, stored)
      case None => (t, Err(Internal))
      case Some(u) => (u, Ok(()))
  }

  // ---------------------------------------------------------------------------------------------
  // Runs of calls taken one at a time

  datatype Call =
    | CallCreateVM(req: CreateRequest)
    | CallStartVM(id: Id, env: StartEnv)
    | CallStopVM(id: Id, cleanupOk: bool, nft: Nft)
    | CallDeleteVM(id: Id, cleanupOk: bool, nft: Nft)
    | CallReconcile(alive: set<Id>, nft: Nft)
    | CallCleanupHostOrphans(nft: Nft)
    | CallSetVMEgressPolicy(id: Id, mode: EgressMode, policyId: Id, nft: Nft)
    | CallAddIngressRule(id: Id, ruleId: Id, protocol: Option<Protocol>, hostPort: int,
        guestPort: int, open: set<int>, nft: Nft)
    | CallDeleteIngressRule(id: Id, ruleId: Id, nft: Nft)
    | CallCreateNetwork(nameOk: bool, id: Id, name: string, text: Option<CidrText>, gateway: Option<u32>)
    | CallDeleteNetwork(id: Id, cleanupOk: bool)
    | CallCreateEgressPolicy(policy: EgressPolicy)
    | CallDeleteEgressPolicy(id: Id)
    | CallCreateSSHKey(id: Id)
    | CallDeleteSSHKey(id: Id)
    | CallCreateBaseImage(id: Id)
    | CallDeleteBaseImage(id: Id)
    | CallCreateKernel(id: Id, path: string)
    | CallDeleteKernel(id: Id)
    | CallStartKernelTest(id: Id, imageFound: bool)
    | CallStartExecJob(jobId: Id, id: Id)

  function OrSame(t: Tables, r: Option<Tables>): Tables {
    if r.Some? then r.value else t
  }

  /** The tables after a call that never touches the firewall. */
  function RegistryCall(s: Setup, t: Tables, c: Call): Tables {
    match c
    case CallCreateVM(req) => CreateVM(s, t, req).0
    case CallCreateNetwork(ok, id, name, text, g) => CreateNetwork(s, t, ok, id, name, text, g).0
    case CallDeleteNetwork(id, ok) => DeleteNetworkCall(t, id, ok).0
    case CallCreateEgressPolicy(p) => CreateEgressPolicy(t, p).0
    case CallDeleteEgressPolicy(id) => OrSame(t, DeleteEgressPolicy(t, id))
    case CallCreateSSHKey(id) => t.(sshKeys := t.sshKeys + {id})
    case CallDeleteSSHKey(id) => OrSame(t, DeleteSSHKey(t, id))
    case CallCreateBaseImage(id) => t.(images := t.images + {id})
    case CallDeleteBaseImage(id) => OrSame(t, DeleteBaseImage(t, id))
    case CallCreateKernel(id, path) =>
      if id in t.kernels || path in t.kernels.Values then t else t.(kernels := t.kernels[id := path])
    case CallDeleteKernel(id) => OrSame(t, DeleteKernel(t, id))
    case CallStartKernelTest(id, found) =>
      if found && id in t.kernels then t.(kernelTests := [id] + t.kernelTests) else t
    case CallStartExecJob(jobId, id) =>
      (match GetVM(t, id)
       case Some(v) =>
         if v.state == Running && forall j :: j in t.jobs ==> j.id != jobId
         then t.(jobs := [JobRow(jobId, id)] + t.jobs) else t
       case None => t)
    case _ => t
  }

  function Exec(s: Setup, h: Host, c: Call): Host {
    match c
    case CallStartVM(id, env) => StartVM(s, h, id, env).0
    case CallStopVM(id, ok, nft) => StopVM(s, h, id, ok, nft).0
    case CallDeleteVM(id, ok, nft) => DeleteVMCall(s, h, id, ok, nft).0
    case CallReconcile(alive, nft) => Reconcile(s, h, alive, nft)
    case CallCleanupHostOrphans(nft) => ApplyNFT(s, h, nft).0
    case CallSetVMEgressPolicy(id, mode, policyId, nft) => SetVMEgressPolicy(s, h, id, mode, policyId, nft).0
    case CallAddIngressRule(id, ruleId, proto, hp, gp, open, nft) =>
      AddIngressRule(s, h, id, ruleId, proto, hp, gp, open, nft).0
    case CallDeleteIngressRule(id, ruleId, nft) => DeleteIngressRuleCall(s, h, id, ruleId, nft).0
    case _ => h.(tables := RegistryCall(s, h.tables, c))
  }

  function Run(s: Setup, h: Host, calls: seq<Call>): Host
    decreases |calls|
  {
    if calls == [] then h else Run(s, Exec(s, h, calls[0]), calls[1..])
  }
}
