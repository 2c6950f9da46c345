# BAP Web control plane: verified model

BAP Web runs Firecracker microVMs on one host. Its control plane keeps a registry of VMs, shared networks, host
ports, policies and keys in a database, allocates addresses and ports from it, compiles it to an nftables table, and
drives jobs on the guests. This project models that core in Dafny and proves what it is for: addresses and ports never
collide, the installed firewall means the declared policy, a start check closes the gap left by allocate-then-insert,
and the text and list handling around it loses nothing.

`dafny verify dfyconfig.toml` checks everything.

## Modules

- `Cidr`: IPv4 addresses and blocks (section 3.1 of RFC 4632), by mask and by range, with wrapping uint32.
- `Model`, `Database`, `Store`: rows, the meaning of each statement, and the database object.
- `Allocation`, `Capacity`: allocators as wrapping loops, their specifications, and the exact capacity of both.
- `Lifecycle`, `Service`: each call as a function of the host's state, and as a method of the service object that works
  step by step. Commands, processes and ports are arguments that may succeed or fail.
- `Invariants`: what every registry reached by calls taken one at a time satisfies.
- `Firewall`, `FirewallMeaning`: the compiler to ordered chains, and what first match over them decides.
- `OtherChains`: established connections, packets between guests and from the LAN, the input and postrouting chains.
- `Sync`, `Enforcement`: the installed table as an index of the registry, and both joined end to end.
- `Calls`, `Requested`: what each call stores, said without the functions that compute it, and from what a call asked
  for to what packets meet.
- `Outcomes`: what one call undoes, and that the start check raises no false alarm.
- `StartCheck`, `Overlaps`, `Sequential`: interleavings of registry calls, one store method at a time, and that a call
  alone does what the sequential one does.
- `ExecJob`, `JobOutcomes`: interleavings of the exec-job protocol, and every row they can leave.
- `ShellPrinter`: the printed command and the shell that reads it (sections 2.2.1, 2.2.2 and 2.3 of the Shell Command
  Language in POSIX.1-2017).
- `Text`, `PolicyText`, `KeyMigration`, `Kernels`, `KernelTexts`, `TerminalKeys`, `KernelTest`, `Buffers`: the smaller
  loops and texts.

## Where the code falls short of what one would expect

Each of these is proved, with the exact condition and a concrete case.

- Anti-spoofing (README.md of the repository, line 60) is not complete. A TAP holds every address of no active VM, but a
  bridge lets through the free addresses of its network, so a deny_all VM on a bridge escapes its policy by taking one
  (`UnknownSourceDropped`, `BridgeSourceExample`). An address of another active VM is held only when the device's guard
  rejects it and does not come after that VM's block, or that VM's verdict is a drop (`ForeignSourceDropped`,
  `ForeignSourceExample`).
- A TAP failure while restarting a VM whose row still says running leaves its rules installed after the row is marked
  `error` (`StartVMSync`, `TapFailureExample`).
- A cancel can be lost in two windows: between the runner's first read and its `running` write, and between its re-read
  and its final write (`LastCancelDecides`, `CancelLost`, `CancelLostAtEnd`).
- The working directory of an exec request may hold a NUL, which no command line can carry (`TokenizePrinted`,
  `NulInDirectory`).
- AuthorizedKeys reads the clock before it takes the lock, so a call overtaken by one with a later reading can miss a
  key that is still good at its own reading (`AnswerExact`, `OvertakenCall`).
- An empty write to a full buffer sets the truncation flag (`FlagHonest`, `EmptyWriteTruncates`).
- `uint32(1) << 32` is 0 in Go, so both address allocators always fail on a /0 (`P2PComplete`, `SharedCapacity`).

Rows with overlapping ranges can be registered when calls interleave (`OverlappingRowsAppear`). They are never two
routed rows, and the owner overlapped is always one inserted after the planning call listed its kind (module
`Overlaps`); two of them never both pass the start check (`NoOverlappingStartsEver`).

## Hypotheses

- `Enforcement.NamesApart` and `FirewallMeaning.Separated`: cutting bridge names to 15 characters keeps them apart, and
  no TAP or bridge of an active VM is another's bridge or the LAN interface.
- `StartCheck`: an id that was ever inserted is never inserted again (ids are random). `Lifecycle.NewId`: a random id is
  never empty.
- `PortsApart` is proved of every reachable registry; it is a hypothesis only in the theorems about a bare list of VMs.

## Model

| member | source | states |
|---|---|---|
| `Cidr.IpToUint32Inverse` | internal/lifecycle/service.go:2566-2573 | An address survives ipToUint32 followed by uint32ToIP |
| `Cidr.Uint32ToIPInverse` | internal/lifecycle/service.go:2566-2573 | A uint32 survives uint32ToIP followed by ipToUint32 |
| `Cidr.AndMask` | internal/lifecycle/service.go:1185-1197 | Bitwise and with a prefix mask is subtraction of the low bits, for every word width: the bridge from masks to ranges |
| `Cidr.LastInRange` | internal/lifecycle/service.go:1185-1197 | No block ends above 255.255.255.255, so the uint64 sums of ipNetRange stay inside the address space |
| `Cidr.ContainsIffInRange` | internal/lifecycle/service.go:2547-2564 | Membership by mask (net.IPNet.Contains) is membership in the range of ipNetRange |
| `Cidr.OverlapNests` | internal/lifecycle/service.go:1164-1174 | Two blocks that meet are nested, the one with the longer prefix inside |
| `Cidr.OverlapMeansIntersect` | internal/lifecycle/service.go:1164-1197 | cidrOverlaps holds iff some address is in both blocks, iff one block contains the other |
| `Cidr.WithinLastAddress` | internal/lifecycle/service.go:2547-2564 | The wrapping `start + size - 1` of cidrWithin is the last address of the child, also for a /0 where `size` is 0 |
| `Cidr.WithinMeansInclusion` | internal/lifecycle/service.go:2547-2564 | Testing only the first and last address is inclusion of the address sets, both directions |
| `Store.Store.CreateVM` | internal/store/store.go:78-111 | A row goes in exactly when no other row has its id, name, SSH port, TAP name or guest address; otherwise nothing changes |
| `Store.Store.UpdateVM` | internal/store/store.go:822-832 | The whole row with that id is replaced, and only it, exactly when the new row shares no UNIQUE column with another row; a missing row stays missing |
| `Store.Store.DeleteVM` | internal/store/store.go:834-843 | The VM goes together with all its ingress rules and exec jobs, and nothing else goes |
| `Store.Store.CreateNetwork` | internal/store/store.go:122-129 | A network goes in, first and as given, exactly when id, name and CIDR are new |
| `Store.Store.DeleteNetwork` | internal/store/store.go:924-934 | A network is kept while any VM row names it |
| `Store.Store.CreateIngressRule` | internal/store/store.go:950-954 | A rule goes in exactly when its id and host port are new, and no other rule changes |
| `Store.Store.DeleteIngressRule` | internal/store/store.go:973-976 | Only the rule with both that id and that VM goes |
| `Store.Store.CreateEgressPolicy` | internal/store/store.go:991-995 | A policy goes in, first and as given, exactly when id and name are new |
| `Store.Store.DeleteEgressPolicy` | internal/store/store.go:1019-1029 | A policy is kept while any VM row names it |
| `Store.Store.DeleteSSHKey` | internal/store/store.go:758-768 | A key is kept while any VM row names it |
| `Store.Store.DeleteBaseImage` | internal/store/store.go:1090-1100 | An image is kept while any VM row names it |
| `Store.Store.DeleteKernel` | internal/store/store.go:1275-1295 | A kernel is kept while any VM row names it or its path; its test jobs go with it |
| `Database.DistinctRows` | internal/store/store.go:78-111 | In a table that keeps its UNIQUE columns, two rows that agree in one of them are the same row |
| `Database.ReplaceVMDistinct` | internal/store/store.go:822-832 | Replacing a row by one that clashes with no other row keeps every UNIQUE column unique |
| `Allocation.FindCIDROverlap` | internal/lifecycle/service.go:1006-1061 | Finds an owner iff some other network or routed row overlaps; a VM is named only when no network overlaps |
| `Service.Service.EnsureVMNetworkUsable` | internal/lifecycle/service.go:1079-1125 | The check run by StartVM passes exactly when the VM's own range (its network's CIDR, or its routed block) meets no other registered range |
| `Allocation.AllocateP2PLoop` | internal/lifecycle/service.go:1268-1297 | The uint32 loop never wraps: it visits the aligned /30 blocks of vm_cidr in order and stops at the first free one |
| `Allocation.P2PComplete` | internal/lifecycle/service.go:1268-1297 | Fails (a /0 aside) only when every aligned /30 inside vm_cidr has a used guest address or meets a shared network; on success the block is the lowest free one, and host and guest are its two usable addresses |
| `Allocation.AllocateSharedLoop` | internal/lifecycle/service.go:1299-1327 | The uint32 loop finds the lowest host address that is neither used nor the gateway |
| `Capacity.UsedInside` | internal/lifecycle/service.go:1299-1327 | In every registry that keeps the invariant, the used addresses among a network's usable ones are exactly its own VMs' addresses |
| `Capacity.SharedCapacity` | internal/lifecycle/service.go:1299-1327 | In every registry reached from an empty database, allocateShared on a /n succeeds iff n >= 1 and fewer than 2^(32-n) - 3 VMs are on the network, and then hands out the lowest free address |
| `Capacity.P2PCapacity` | internal/lifecycle/service.go:1268-1297 | In every registry reached from an empty database, for a vm_cidr of /1 to /30, allocateP2P succeeds iff the routed VMs and the /30 blocks under shared networks are together fewer than the 2^(30-n) blocks of vm_cidr |
| `Allocation.AllocatePortLoop` | internal/lifecycle/service.go:1207-1238 | A requested port is the port returned, or refused as out of range or taken; otherwise the lowest port of the range that is unused in both tables and not open, and an error only when none is left |
| `Allocation.ValidateSharedNetwork` | internal/lifecycle/service.go:2435-2465 | An accepted network is a /30 or larger inside vm_cidr, overlaps nothing registered, and its gateway is a usable host address |
| `Service.Service.CreateVM` | internal/lifecycle/service.go:369-496 | All checks in the order of the source, then one insert: the tables after the call and the result are those of the specification function |
| `Service.Service.AllocateNetwork` | internal/lifecycle/service.go:1240-1266 | The lease is the routed or the shared one of the specification, with the error codes of the source |
| `Service.Service.StartVM` | internal/lifecycle/service.go:498-535 | Tables, installed firewall and result after every mixture of refused check, TAP failure, nft failure, Firecracker failure and success |
| `Service.Service.StopVM` | internal/lifecycle/service.go:537-564 | The two row writes and the rebuild, whatever fails in them |
| `Service.Service.DeleteVM` | internal/lifecycle/service.go:566-586 | Nothing is deleted unless stopping succeeded |
| `Service.Service.Reconcile` | internal/lifecycle/service.go:178-209 | Rows whose process died are stopped, and the firewall is rebuilt if any VM may have been running |
| `Invariants.UpdateKeepsInv` | internal/store/store.go:822-832 | A row write that keeps the row's identity columns and names existing policies keeps the whole invariant |
| `Invariants.CreateVMKeepsInv` | internal/lifecycle/service.go:369-496 | CreateVM keeps the address plan, the port plan and all references, whatever it is asked and whatever fails |
| `Invariants.ExecKeepsInv` | internal/lifecycle/service.go:178-845 | Every call, whatever fails in it, keeps the invariant |
| `Invariants.RunKeepsInv` | internal/lifecycle/service.go:178-845 | Every run of calls keeps the invariant |
| `Invariants.PlanDisjoint` | internal/lifecycle/service.go:1268-1327 | Under the invariant all shared CIDRs and routed /30 blocks are inside vm_cidr and pairwise disjoint |
| `Invariants.ReachableAddressPlan` | internal/lifecycle/service.go:2435-2465 | From an empty database every run keeps all ranges disjoint and inside vm_cidr, guest addresses distinct, and each shared guest inside its network and different from network, broadcast and gateway address |
| `Invariants.ReachableReferences` | internal/store/store.go:758-768 | From an empty database every run keeps each network, policy (with its mode), SSH key, kernel, image and VM reference whole, also those of ingress rules, exec jobs and kernel test jobs, and each host port used once within and across the two tables |
| `Calls.CreateVMExactly` | internal/lifecycle/service.go:369-496 | CreateVM succeeds exactly when the request is acceptable, a port and a lease are left, and no row has the new id or TAP name; it then adds one row, first, with the name, key, kernel, image, modes, policy and port asked for (a policy's own mode when one is named) and the lease; otherwise nothing changes |
| `Calls.CreateVMCodes` | internal/lifecycle/service.go:369-496 | Which check fails first decides the error code |
| `Calls.SetPolicyExactly` | internal/lifecycle/service.go:748-786 | Refuses exactly a missing VM, a missing policy or an unsupported mode, and then changes nothing; otherwise exactly the two egress columns of the row change, to the policy's mode or the one asked for, and the firewall of an active VM is rebuilt |
| `Calls.AddIngressExactly` | internal/lifecycle/service.go:788-828 | Gets past its checks exactly when the VM exists, the protocol is known, both ports are in 1..65535, the host port is no SSH port, not open and no rule's, and the id is new; then the table has exactly one more rule, the one asked for, and the firewall of an active VM is rebuilt |
| `Calls.InsertKeepsOrder` | internal/store/store.go:956-957 | The rules stay in the order in which they are listed |
| `Calls.DeleteIngressExactly` | internal/lifecycle/service.go:830-845 | Exactly the rule with that id of that VM goes, and the firewall of an active VM is rebuilt |
| `Calls.StartVMExactly` | internal/lifecycle/service.go:498-535 | A missing VM and an unusable TAP name are refused; a VM that already runs is left alone; otherwise the row ends in running, or in error, and what is installed afterwards is said for each failure |
| `Calls.StopVMExactly` | internal/lifecycle/service.go:537-564 | The row ends in stopped and the firewall is rebuilt or wrecked by what failed; the result says whether nft and the clean-up worked |
| `Calls.DeleteVMExactly` | internal/lifecycle/service.go:566-586 | The row, its rules and its jobs go, and nothing else, exactly when nft and the clean-up worked; otherwise the VM is left stopped |
| `Calls.ReconcileExactly` | internal/lifecycle/service.go:178-209 | Row i becomes stopped exactly when it was running, starting or stopping and its process is dead; no other row and no other table changes, and the firewall is rebuilt exactly when some row was in one of these states |
| `Calls.StartCheckExactly` | internal/lifecycle/service.go:1079-1125 | The start check: a shared VM needs its network, whose CIDR may share no address with another owner's range; a routed VM's block neither; a VM without a range passes |
| `Calls.AllocateNetworkExactly` | internal/lifecycle/service.go:1240-1266 | A shared lease needs the id of a network that shares no address with another owner's range; every refusal has its code |
| `Calls.ValidateExactly` | internal/lifecycle/service.go:2435-2465 | The block that holds the address of the text is accepted exactly when it is at most a /30, inside vm_cidr, shares no address with anything registered, and has the gateway, or without one its second address, strictly inside; block and gateway are the result |
| `Calls.CreateNetworkExactly` | internal/lifecycle/service.go:679-701 | Adds exactly the validated network, first, when id and name are new, and otherwise changes nothing |
| `Calls.DeleteNetworkExactly` | internal/lifecycle/service.go:703-715 | Takes exactly the network of that id, unless a VM row names it |
| `Calls.CreatePolicyExactly` | internal/lifecycle/service.go:717-742 | Stores the mode given and, for a restricted policy, the lists given, else none; refuses exactly an unknown mode, a restricted policy without lists, and a taken id or name |
| `Calls.KeysAndImagesExactly` | internal/store/store.go:758-768 | Which keys and images are registered after each call that adds or takes one |
| `Calls.KernelsExactly` | internal/lifecycle/kernels.go:512-542 | A kernel is added when id and path are new; a test job exactly for a registered kernel |
| `Calls.DeleteKernelExactly` | internal/store/store.go:1275-1295 | A kernel that no row names goes with its test jobs, and no other kernel goes |
| `Calls.ExecJobExactly` | internal/lifecycle/service.go:1878-1917 | A job is added exactly for a running VM |
| `Calls.TapNames` | internal/lifecycle/service.go:345-356 | The TAP name of an id is valid iff the first eleven characters of the id are, and two ids share one iff they agree there |
| `Service.Service.EgressNFTRules` | internal/lifecycle/service.go:1656-1693 | The egress loops emit the specified rules; fails exactly for a missing policy or an unsupported mode |
| `Service.Service.ApplyNFT` | internal/lifecycle/service.go:1551-1638 | The loop over the VMs, with its map of bridges already guarded, installs exactly the compiled table, or fails where the source fails |
| `FirewallMeaning.EgressMeaning` | internal/lifecycle/service.go:1656-1693 | A VM's egress rules decide exactly its own packets, and as its policy says: allow, deny, or the listed TCP ports, UDP ports and CIDRs |
| `FirewallMeaning.ForwardDecision` | internal/lifecycle/service.go:1551-1638 | For any number and order of active VMs, first match over the whole forward chain is a decision in terms of VMs alone |
| `FirewallMeaning.OwnPacketMeaning` | internal/lifecycle/service.go:1571-1636 | A new packet from a VM's own device and address is dropped towards a protected CIDR and otherwise gets that VM's policy verdict, whatever other VMs' blocks say |
| `FirewallMeaning.UnknownSourceDropped` | internal/lifecycle/service.go:1583-1602 | A packet from any VM's device with an address of no active VM is dropped iff the device is a TAP or the address is outside the bridge's network |
| `FirewallMeaning.BridgeSourceExample` | internal/lifecycle/service.go:1584-1599 | A deny_all VM on a bridge whose packet, with a free address of its own network, is accepted |
| `FirewallMeaning.ForeignSourceDropped` | internal/lifecycle/service.go:1583-1602 | From any device with an active VM's address: dropped iff the device's guard rejects the address and does not come after that VM's block, or that VM's own verdict is a drop |
| `FirewallMeaning.ForeignSourceExample` | internal/lifecycle/service.go:1600-1602 | Two routed allow_all VMs for which a packet with the other's address is accepted |
| `FirewallMeaning.PublishedPortRewritten` | internal/lifecycle/service.go:1603-1625 | A LAN packet to a published host port is rewritten by first match to exactly that VM and guest port |
| `FirewallMeaning.UnpublishedPortKept` | internal/lifecycle/service.go:1603-1625 | A packet to any other port, or from elsewhere, keeps its destination |
| `FirewallMeaning.PublishedPortAccepted` | internal/lifecycle/service.go:1603-1625 | The rewritten packet is accepted by a rule when its source is no active guest |
| `OtherChains.EstablishedAccepted` | internal/lifecycle/service.go:1571-1573 | For every config and registry that compiles, a packet of an established connection is accepted by a rule of the forward chain, in both directions |
| `OtherChains.SidewaysMeaning` | internal/lifecycle/service.go:1583-1615 | A new packet off the LAN is dropped by a rule exactly when its device's guard rejects its source, or its source is an active VM's and its destination protected; no rule accepts one |
| `OtherChains.InboundMeaning` | internal/lifecycle/service.go:1603-1625 | A new packet from the LAN whose source is no guest is accepted by a rule exactly when it goes to an active VM at port 22 or at the guest port of one of its rules; no rule drops one |
| `OtherChains.InputMeaning` | internal/lifecycle/service.go:1603-1604 | The input chain accepts exactly the requests of active VMs to the metadata port of their host address, and drops nothing |
| `OtherChains.MasqueradeMeaning` | internal/lifecycle/service.go:1603-1607 | Exactly the packets of active VMs that leave by the LAN are masqueraded |
| `OtherChains.ProtectedAddresses` | internal/lifecycle/service.go:1609-1615 | Without a configured list exactly 127.0.0.0/8 and 169.254.169.254 are protected, with one exactly its addresses |
| `OtherChains.BridgeNames` | internal/lifecycle/service.go:2575-2581 | Bridge names have at most 15 characters; two ids share one iff they agree, but for case, in their first eight |
| `OtherChains.CompileFailsExactly` | internal/lifecycle/service.go:1551-1693 | applyNFT fails before it runs nft exactly for an active VM without a host address, without its network or policy, or with an unknown mode |
| `Enforcement.GuestsSeparated` | internal/lifecycle/service.go:2575-2581 | The invariant and unclipped interface names give distinct guest addresses and devices |
| `Enforcement.GuestPortsApart` | internal/store/store.go:130-137 | The invariant gives host ports published once across SSH and ingress |
| `Enforcement.EgressEnforced` | internal/lifecycle/service.go:1551-1693 | End to end: after any clean run, what the installed table does to a VM's own packets is what the registry declares |
| `Enforcement.SpoofingEnforced` | internal/lifecycle/service.go:1583-1602 | End to end: after any clean run a packet from a VM's device with an address of no active VM is dropped iff the VM is routed or the address is outside its network |
| `Enforcement.IngressEnforced` | internal/lifecycle/service.go:788-828 | End to end: after any clean run a LAN packet to a published port reaches exactly its VM and port and is accepted |
| `Enforcement.UnpublishedEnforced` | internal/lifecycle/service.go:788-828 | End to end: after any clean run a packet to an unpublished port is not rewritten |
| `Enforcement.EstablishedEnforced` | internal/lifecycle/service.go:1571-1573 | End to end: after any clean run packets of established connections are accepted, in both directions |
| `Enforcement.SidewaysEnforced` | internal/lifecycle/service.go:1583-1615 | End to end: after any clean run the drops between guests and off the LAN, exactly, in terms of rows |
| `Enforcement.InboundEnforced` | internal/lifecycle/service.go:1603-1625 | End to end: after any clean run what is accepted from the LAN, exactly, in terms of rows |
| `Enforcement.MetadataEnforced` | internal/lifecycle/service.go:1603-1604 | End to end: after any clean run which requests the input chain accepts |
| `Enforcement.MasqueradeEnforced` | internal/lifecycle/service.go:1603-1607 | End to end: after any clean run which packets are masqueraded |
| `Requested.OwnMode` | internal/lifecycle/service.go:1656-1693 | An active row without a policy: deny_all drops its own new packets to the LAN, allow_all accepts them but to protected addresses |
| `Requested.NamedPolicy` | internal/lifecycle/service.go:1656-1693 | An active row with a policy: allowed, denied, or exactly what the lists admit |
| `Requested.EgressModeHolds` | internal/lifecycle/service.go:748-786 | From call to packet: SetVMEgressPolicy on an active VM with a mode, once nft succeeds, makes its own new packets to the LAN dropped or accepted as asked |
| `Requested.RestrictedPolicyHolds` | internal/lifecycle/service.go:748-786 | From call to packet: with a restricted policy, exactly what its lists admit gets out |
| `Requested.AddedRuleServes` | internal/lifecycle/service.go:788-828 | From call to packet: after AddIngressRule succeeds on an active VM, a LAN packet to the host port asked for goes to the VM's address and the guest port asked for, and is accepted |
| `Sync.CompileTotal` | internal/lifecycle/service.go:1591-1593 | Under the invariant compiling never fails: network-missing, policy-missing and unknown-mode are unreachable |
| `Sync.ReachableCompiles` | internal/lifecycle/service.go:1656-1693 | No registry reached from an empty database makes those errors happen |
| `Sync.ApplyRestores` | internal/lifecycle/service.go:1551-1638 | One successful applyNFT makes table and registry agree, whatever was installed before |
| `Sync.FailedStateSync` | internal/lifecycle/service.go:1199-1205 | Ending in `error` keeps the agreement iff the VM was not active |
| `Sync.LaunchSync` | internal/lifecycle/service.go:498-535 | After the checks: agreement iff Firecracker started, or, when the TAP failed, iff the VM was not active |
| `Sync.StartVMSync` | internal/lifecycle/service.go:498-535 | The exact condition under which StartVM keeps the agreement when nft does not fail |
| `Sync.StopVMSync` | internal/lifecycle/service.go:537-564 | StopVM restores the agreement and leaves the VM inactive |
| `Sync.ExecSync` | internal/lifecycle/service.go:178-845 | Every call that runs applyNFT to its end makes table and registry agree, and any other call in which nothing fails keeps the agreement |
| `Sync.RunSync` | internal/lifecycle/service.go:178-845 | Over every run the table equals the compiled registry whenever nothing has failed since the last successful applyNFT of any call, Starting and Running compiled alike |
| `Requested.SmoothIsClean` | internal/lifecycle/service.go:947-978 | A run of calls in which no command fails, after the clean-up of host orphans, is a clean run of the end-to-end theorems |
| `Requested.SuccessRebuilds` | internal/lifecycle/service.go:537-845 | Every stop and delete that succeeds, and every policy or rule call that succeeds on an active VM, has rebuilt the firewall |
| `Requested.StartRebuilds` | internal/lifecycle/service.go:498-535 | Every start that succeeds, unless the VM already ran, has rebuilt the firewall |
| `Outcomes.ReachableStartCheck` | internal/lifecycle/service.go:1079-1125 | The start check raises no false alarm: in every registry reached by calls one at a time it accepts every registered VM |
| `Outcomes.StopOutcome` | internal/lifecycle/service.go:537-564 | A stop in which nothing fails changes exactly the row's state and leaves the firewall current |
| `Outcomes.StartOutcome` | internal/lifecycle/service.go:498-535 | A start in which nothing fails ends in running, changes no other row, and leaves the firewall current |
| `Outcomes.RestartRestores` | internal/lifecycle/service.go:611-628 | Stopping and starting a running VM leaves registry and firewall as they were |
| `Outcomes.TapFailureExample` | internal/lifecycle/service.go:498-535 | For every vm_cidr, a run from an empty database to a running VM, and a start with a failing TAP after which table and registry disagree |
| `Outcomes.InsertDeleteVM` | internal/store/store.go:834-843 | Deleting a row just inserted restores the tables: the cascade takes nothing else |
| `Outcomes.DeleteUndoesCreate` | internal/lifecycle/service.go:566-586 | A failed CreateVM changes nothing, and DeleteVM undoes a successful one in registry and firewall |
| `Outcomes.DeleteUndoesCreateNetwork` | internal/lifecycle/service.go:703-715 | A failed CreateNetwork changes nothing; DeleteNetwork undoes a successful one iff no VM row names the id |
| `Outcomes.DeleteUndoesAddIngress` | internal/lifecycle/service.go:830-845 | A refused rule changes nothing, and DeleteIngressRule undoes AddIngressRule in registry and firewall |
| `StartCheck.StepSafe` | internal/lifecycle/service.go:498-519 | Every step of every call, one store method at a time, keeps the safety invariant |
| `StartCheck.InterleavingsSafe` | internal/lifecycle/service.go:1079-1125 | Every interleaving keeps it |
| `StartCheck.NoOverlappingStartsEver` | internal/lifecycle/service.go:1079-1125 | In every interleaving of any number of creates, deletes, starts and row writes, no two registered VMs with overlapping ranges have both passed the start check; one shared network counts as one range |
| `Overlaps.RoutedRowsNeverOverlap` | internal/lifecycle/service.go:1268-1297 | In every interleaving, from every registry of aligned leases, routed blocks stay disjoint: the UNIQUE guest address keeps them apart |
| `Overlaps.RoutedOverlapsAreNewer` | internal/lifecycle/service.go:1063-1077 | A network that a planned routed block overlaps, then or later, was inserted after CreateVM listed the networks |
| `Overlaps.NetworkOverlapsAreNewer` | internal/lifecycle/service.go:1006-1061 | A network that a planned network overlaps was inserted after CreateNetwork listed the networks, and a routed VM after it listed the VMs |
| `StartCheck.OverlappingRowsAppear` | internal/lifecycle/service.go:445-489 | Overlapping rows themselves do appear: an interleaving, for every vm_cidr, in which a network and a VM both claim its first /30 |
| `Sequential.StartAlone` | internal/lifecycle/service.go:498-519 | A start whose steps no other call comes between passes its check exactly when the sequential check accepts the row |
| `Sequential.CreateAlone` | internal/lifecycle/service.go:445-489 | A create alone inserts its row with exactly the lease of the sequential allocator, or nothing when that refuses |
| `Sequential.NetworkAlone` | internal/lifecycle/service.go:679-701 | A CreateNetwork alone does what the sequential call does |
| `Sequential.DropsAlone` | internal/lifecycle/service.go:703-715 | The two deletes take exactly the row or the unused network |
| `JobOutcomes.RowsExactly` | internal/lifecycle/service.go:1919-2000 | At every moment of every interleaving the row is queued, running, canceled, or exactly the record of a command that could not be run, timed out, failed or succeeded |
| `JobOutcomes.RunAlone` | internal/lifecycle/service.go:1947-2000 | A job nobody cancels ends with exactly the record of its command's outcome, its context ended and its entry gone |
| `JobOutcomes.CancelAlone` | internal/lifecycle/service.go:1919-1945 | A cancel alone leaves a finished job as it is, marks any other canceled with its error and completion, and ends the runner's context exactly when the runner is registered |
| `JobOutcomes.EndedContext` | internal/lifecycle/service.go:1947-1966 | A first read that fails under an ended context leaves the row as it is and executes nothing; so does a failing running write to the row |
| `JobOutcomes.CanceledNeverRuns` | internal/lifecycle/service.go:1947-1960 | A job canceled before the runner's first read is never executed and stays canceled |
| `JobOutcomes.FinishedStays` | internal/lifecycle/service.go:1919-2000 | Once all calls are done, no later call changes the row |
| `ExecJob.StepGood` | internal/lifecycle/service.go:1919-2000 | Every step of the runner and of any number of cancellers keeps the protocol invariant |
| `ExecJob.FinalStatus` | internal/lifecycle/service.go:1947-2000 | Once all calls finish, the status is succeeded, failed or canceled and the cancel map has no entry for the job |
| `ExecJob.SuccessIsHonest` | internal/lifecycle/service.go:1947-2000 | At every moment a succeeded row has exit code 0, is not timed out, has no error and has a completion time |
| `ExecJob.CancelHolds` | internal/lifecycle/service.go:1919-1945 | A canceled row stays canceled while no `running` write follows and the runner has not already decided on its final write |
| `ExecJob.CancelBeforeReread` | internal/lifecycle/service.go:1919-2000 | A cancel write followed by the runner's re-read, with no `running` write between, makes the final status canceled whatever follows |
| `ExecJob.LastCancelDecides` | internal/lifecycle/service.go:1919-2000 | Exactly: once the runner finishes, the job is canceled iff, at the last cancel write, the runner did not hold its final write, and no `running` write came after it |
| `ExecJob.CancelLost` | internal/lifecycle/service.go:1955-1966 | The first window: a cancel written between the runner's first read and its `running` write, and a job that succeeds |
| `ExecJob.CancelLostAtEnd` | internal/lifecycle/service.go:1974-1998 | The second window: a cancel written between the runner's re-read and its final write, and a job that succeeds |
| `ShellPrinter.NormalizeExactly` | internal/lifecycle/service.go:2101-2131 | Exactly which requests are accepted; command and directory are trimmed, a missing timeout becomes 60 seconds, and nothing else changes |
| `ShellPrinter.NormalizeTwice` | internal/lifecycle/service.go:2101-2131 | What normalisation accepts meets the printer's expectations and is its own normal form |
| `ShellPrinter.BuildRemoteExecCommand` | internal/lifecycle/service.go:2133-2153 | The append loops print the specified text under the unique sorted listing of the variables, whatever order the map gives them in |
| `ShellPrinter.ListsUnique` | internal/lifecycle/service.go:2138-2142 | A set of names has one sorted listing |
| `ShellPrinter.ScanQuoted` | internal/lifecycle/service.go:1501-1507 | The shell reads a quoted value back as the value, for every value and every surrounding text |
| `ShellPrinter.ScanPrinted` | internal/lifecycle/service.go:2133-2153 | The shell reads the printed text as exactly: optional cd, directory and `&&`; optional env and the sorted assignments; sh, -lc and the command as one word |
| `ShellPrinter.TokenizePrinted` | internal/lifecycle/service.go:2101-2153 | The text reaches the shell and is read so iff the directory holds no NUL |
| `ShellPrinter.TokensExactly` | internal/lifecycle/service.go:2133-2153 | The tokens one by one: cd, directory and &&; env and one assignment for each variable; sh, -lc and the command as one word |
| `ShellPrinter.NulInDirectory` | internal/lifecycle/service.go:2101-2131 | A request with a NUL in its directory that normalisation accepts |
| `ShellPrinter.ReadMeaning` | internal/lifecycle/service.go:2133-2153 | Directory, variables and command can be read back from the tokens |
| `ShellPrinter.PrinterInjective` | internal/lifecycle/service.go:2133-2153 | Two normalised requests that print alike agree in directory, variables and command |
| `Text.SplitJoin` | internal/lifecycle/service.go:2536-2545 | Split undoes Join when no part holds the separator |
| `Text.TrimSpaceExactly` | internal/lifecycle/service.go:2536-2545 | Exactly the spaces around a text are cut |
| `Text.CompareTextMeaning` | internal/lifecycle/service.go:2138-2141 | The order of texts is the lexicographic one |
| `Text.ParseIPv4Exactly` | internal/lifecycle/service.go:2512-2534 | The only text read as an address is the one it is printed as |
| `Text.ValueItoa` | internal/lifecycle/service.go:2493-2510 | A number survives printing in decimal, and only 0 prints with a leading zero |
| `Text.ParseFormatIP` | internal/lifecycle/service.go:2566-2573 | An address survives printing as a dotted quad |
| `Text.ParseFormatCIDR` | internal/lifecycle/service.go:2512-2534 | A block survives printing as address and prefix length |
| `PolicyText.PortMeans` | internal/lifecycle/service.go:2493-2510 | A decimal text is read as its number, exactly in 1..65535 |
| `PolicyText.ItemMeans` | internal/lifecycle/service.go:2512-2534 | An address text stands for the address alone, and address/length for the block of that length around it |
| `PolicyText.SplitCSVLoop` | internal/lifecycle/service.go:2536-2545 | The loop keeps the non-empty trimmed parts in order |
| `PolicyText.PartsListed` | internal/lifecycle/service.go:2536-2545 | The elements of a list are its non-blank parts between commas, trimmed |
| `PolicyText.NormalFails` | internal/lifecycle/service.go:2493-2534 | Normalisation fails exactly when some part does not parse |
| `PolicyText.NormalizeMeaning` | internal/lifecycle/service.go:2467-2534 | For any element type that prints and parses back: the stored list has no repetitions, lists the elements of the raw list, and is its own normal form |
| `PolicyText.NormalizePorts` | internal/lifecycle/service.go:2493-2510 | The dedup loop computes the normal form of a port list, and refuses exactly the lists with a part that is no port |
| `PolicyText.PortsPreserved` | internal/lifecycle/service.go:2493-2510 | The stored port list has no repetitions, admits exactly the ports of the raw list, and normalising again changes nothing |
| `PolicyText.NormalizeCIDRs` | internal/lifecycle/service.go:2512-2534 | The loop, which remembers texts, computes the normal form over blocks |
| `PolicyText.AddressesPreserved` | internal/lifecycle/service.go:2512-2534 | The stored CIDR list has no repetitions, admits exactly the addresses of the raw list (host bits masked, bare addresses as /32), and normalising again changes nothing |
| `KeyMigration.CandidatesDiffer` | internal/store/store.go:508-523 | Different attempts try different names |
| `KeyMigration.AttemptsBounded` | internal/store/store.go:508-523 | No more attempts than ssh_keys has rows can find their name taken |
| `KeyMigration.KeyTables.InsertUnderFreeName` | internal/store/store.go:508-523 | The unbounded retry loop ends after at most one attempt more than ssh_keys has rows, at the first attempt that does not retry; it inserts one row iff that attempt's id is free, and then under that id and a free name |
| `KeyMigration.KeyTables.MigrateRow` | internal/store/store.go:498-528 | One row is linked to the key row of its fingerprint, existing or new, and a new one holds the normalised key under the id and name of one attempt; it fails only when a new row is needed and the id of the last attempt is taken |
| `KeyMigration.KeyTables.Migrate` | internal/store/store.go:477-531 | It fails only when some row needs a new key row and finds the id of its last attempt taken, so never when no id it can try is taken, and never from a ready state. On success every VM with a parseable key refers to an existing key row of the same fingerprint, every row is settled, and a run over settled rows changes nothing; on an error too, settled rows are untouched, every other row is migrated or untouched, and each new key row holds the normalised key, fingerprint, id and name of an attempt for a row that needed it |
| `KeyMigration.ReadyIsFresh` | internal/store/store.go:477-531 | Distinct row ids without a dash, as random hexadecimal ids are, can never collide, whatever the random suffixes, while no key id names a row that still needs a key row |
| `KeyMigration.ReadyAfterInsert` | internal/store/store.go:508-528 | The state between the INSERT and the UPDATE of a row is ready again, so a run after an interrupted one succeeds |
| `KeyMigration.EqualFingerprintsShare` | internal/store/store.go:500-507 | Two migrated VMs share a key row iff their keys have the same fingerprint |
| `Kernels.ParseKernelVersionRank` | internal/lifecycle/kernels.go:817-827 | The loop computes the rank: the first three dot-separated numbers and the no-acpi mark |
| `Kernels.CompareVersionsOrder` | internal/lifecycle/kernels.go:797-815 | Zero only for equal strings, and antisymmetric, on all strings |
| `Kernels.CompareVersionsTransitive` | internal/lifecycle/kernels.go:797-815 | Transitive on all strings, strictly unless all three are equal |
| `KernelTexts.RankOfText` | internal/lifecycle/kernels.go:817-827 | The rank of "a.b.c", with or without "-no-acpi", is its three numbers and the mark, saturated at the largest int64 |
| `KernelTexts.SupportedRanks` | internal/lifecycle/kernels.go:751-827 | The rank of every supported version, however its numbers are written, is what Atoi reads |
| `KernelTexts.NewerVersion` | internal/lifecycle/kernels.go:797-815 | The greater major number is newer, then the greater minor, then the greater patch; on equal numbers the standard build is newer than the one without ACPI |
| `KernelTexts.ListedByNumbers` | internal/lifecycle/kernels.go:458-461 | In a sorted list an earlier version has no smaller numbers, most significant first |
| `KernelTexts.NumbersExactly` | internal/lifecycle/kernels.go:762-777 | A version is taken exactly when it is three parts between dots: the wanted numbers and a patch that is not negative |
| `KernelTexts.ValidVersions` | internal/lifecycle/kernels.go:751-777 | The versions taken are 5.10 and 6.1, and without ACPI only 5.10 |
| `KernelTexts.SupportedExactly` | internal/lifecycle/kernels.go:779-788 | The keys taken are those versions in any directory but one of debug builds |
| `KernelTexts.ItemText` | internal/lifecycle/kernels.go:408-456 | Version, variant, keys, URLs and registration reported for a key, as texts |
| `Kernels.SortByVersion` | internal/lifecycle/kernels.go:458-461 | A permutation in non-increasing version order |
| `Kernels.DiscoveryItemsFromKeys` | internal/lifecycle/kernels.go:408-462 | Exactly one item per distinct supported key, versions non-increasing, config key iff key + ".config" was listed, registered iff some kernel's provenance is the URL |
| `TerminalKeys.TerminalKeys.Register` | internal/lifecycle/service.go:2273-2276 | Append, in place or in a larger array, adds one key at the end |
| `TerminalKeys.TerminalKeys.Cleanup` | internal/lifecycle/service.go:2277-2288 | Compaction in the array being read removes exactly the matching keys and keeps the order |
| `TerminalKeys.TerminalKeys.DropExpired` | internal/lifecycle/service.go:1835-1848 | Compaction in the array being read keeps exactly the unexpired keys in order and collects the VM's own |
| `TerminalKeys.HeldAnswer` | internal/lifecycle/service.go:1835-1848 | For every history, whatever the clock readings, the list answers with exactly the keys registered, not cleaned up since, not expired, and not found expired by a later listing, in order of registration |
| `TerminalKeys.AnswerExact` | internal/lifecycle/service.go:1835-1848 | The texts answered for a VM and user are those of all good keys (registered, not cleaned up since, not expired) iff no such key was found expired by a later listing |
| `TerminalKeys.SteadyClock` | internal/lifecycle/service.go:1835-1848 | Clock readings that do not go back in the order of the lock lose nothing |
| `TerminalKeys.OvertakenCall` | internal/lifecycle/service.go:1835-1836 | A call that reads the clock before it takes the lock and is overtaken by a later reading: its user's key is good and is not answered |
| `TerminalKeys.RowKeysExactly` | internal/lifecycle/service.go:1820-1834 | The keys of a row: the referenced key, or without a reference the managed one, and the extra ones |
| `TerminalKeys.KeyFileLines` | internal/lifecycle/service.go:1848 | The answer has each key on a line of its own |
| `TerminalKeys.TerminalKeys.AuthorizedKeys` | internal/lifecycle/service.go:1816-1850 | The answer is the row's keys followed by exactly the keys of the VM and user still shown, which are all its good keys iff none was found expired by a later listing |
| `KernelTest.FieldsTidy` | internal/model/model.go:227-231 | Trimming and replacing line ends changes no field |
| `KernelTest.TrimQuotesExactly` | internal/model/model.go:198 | Exactly the quotes around a token are cut |
| `KernelTest.ReleaseExactly` | internal/model/model.go:182 | A release is digits, a dot, a digit, and then only the characters the pattern names |
| `KernelTest.LooksExactly` | internal/model/model.go:265-270 | A field looks like a release iff it matches the pattern and is no printed IPv4 address |
| `KernelTest.ReleaseOf` | internal/model/model.go:192-214 | The release is the first release-looking field, or empty iff there is none |
| `KernelTest.GatewayOf` | internal/model/model.go:192-214 | The gateway answer is that of the last gateway field |
| `KernelTest.CleanKernelTestOutput` | internal/model/model.go:227-263 | The loops compute the cleaned text of the specification |
| `KernelTest.CleanExactly` | internal/model/model.go:227-263 | The cleaned text is the release, the gateway's answer, or both with a space between; without either it is the kept lines |
| `KernelTest.LineEnds` | internal/model/model.go:228-229 | CR LF and CR become line feeds, and nothing else changes |
| `KernelTest.KeptAppend` | internal/model/model.go:254-262 | Lines are kept one by one and in order |
| `KernelTest.KeptOne` | internal/model/model.go:254-262 | A line is kept trimmed, unless it is blank or a host key warning of ssh |
| `KernelTest.ReportRead` | internal/model/model.go:192-263 | A report of a release and a gateway is read as what it says, and is already clean |
| `KernelTest.CleanKeepsAnswers` | internal/model/model.go:227-263 | Cleaning keeps the first release-looking field and the last gateway field of the raw text |
| `KernelTest.CleanTwice` | internal/model/model.go:227-263 | Cleaning is idempotent |
| `KernelTest.ParseKernelTestResult` | internal/model/model.go:192-225 | Parsing, which reads the cleaned text, answers for the raw text, with the summary that the two answers make |
| `Buffers.LimitedBuffer.Write` | internal/lifecycle/service.go:2176-2191 | After any writes the content is the first `limit` bytes of the stream, the flag is set iff bytes were lost or an empty write found the buffer full, and every write reports its full length |
| `Buffers.FlagHonest` | internal/lifecycle/service.go:2176-2191 | The flag says whether bytes were lost, except exactly when the stream filled the buffer to the last byte and an empty write followed |
| `Buffers.EmptyWriteTruncates` | internal/lifecycle/service.go:2176-2191 | A stream for which nothing was lost and the flag is set |
| `Buffers.VMLogs` | internal/lifecycle/service.go:847-872 | The shifting window returns exactly the last min(n, lines) lines in order, n being 300 for a request outside 1..2000 |

## Left out

- HTTP handlers, templates, sessions, CSRF and API tokens: routing and pages.
- Commands, the Firecracker socket, the jailer, root file systems, image builds and hooks, kernel downloads: steps that
  succeed or fail.
- SQL text, timestamps and free-text columns: a table is the rows and columns the properties need, and VM rows with
  equal creation times are listed newest insert first.
- Statements that fail for reasons other than a constraint (disk, cancelled request): database reads always succeed,
  except in the exec-job protocol, where a statement under an ended context may fail.
- IPv6 texts: rejected by the code and by `Text.ParseIPv4` and `Text.ParseCIDR` alike; IPv4-mapped forms such as
  ::ffff:10.0.0.1, which the code accepts, are rejected here.
- Rows whose CIDR or address text does not parse: the code skips them in overlap checks; here such columns hold parsed
  values, and a routed row without a usable block is the only one of the kind that is kept.
- RestartVM and UpdateResources: compositions of StopVM, a row write and StartVM, which runs of calls include.
- MigrateSSHAccess, default kernels and default images, and the choice made by resolveKernelForVM and
  resolveBaseImageForVM: the selected ids are arguments of CreateVM.
- The firewalld part of applyNFT (service.go:1640-1654).
- StartCheck.StepSafe: the statements inside one store method, such as the count and the delete of DeleteNetwork or the
  three deletes of DeleteVM, are one step.
- ShellPrinter.Scan: reads text without expansions, comments and double quotes, and gives None for them; the printed
  text has none. A line continuation inside an operator is not modelled.
- ExecJob.Step: audit rows and log files of a job, and deletion of its VM during the run.
- TerminalKeys.TerminalKeys.AuthorizedKeys: the lock is not modelled; steps are in the order in which the lock is
  taken, and the clock reading is an argument.
- KeyMigration.KeyTables.Migrate: parsing and fingerprinting of keys and random suffixes are arguments.
- Kernels.DiscoveryItemsFromKeys: architecture, prefix, ids and times, which are copied into every item.
- KernelTest.ParseKernelTestResult: EnrichKernelTestJob, which copies the three answers into a record.
- Buffers.VMLogs: splitting the file into lines and the scanner's limit on line length.
