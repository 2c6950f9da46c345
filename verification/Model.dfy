/** Rows of the registry's tables, with addresses and CIDRs as parsed values. */
module Model {
  import opened Cidr

  type Id = string

  datatype Option<+T> = None | Some(value: T)

  /** The error codes of DomainError; Internal also stands for plain errors. */
  datatype ErrorCode = Invalid | NotFound | Conflict | Unprocessable | Internal

  datatype Result<+T> = Ok(value: T) | Err(code: ErrorCode) {
    predicate IsFailure() {
      Err?
    }

    function PropagateFailure<U>(): Result<U>
      requires Err?
    {
      Err(code)
    }

    function Extract(): T
      requires Ok?
    {
      value
    }
  }

  function Need(condition: bool, code: ErrorCode): Result<()> {
    if condition then Ok(()) else Err(code)
  }

  datatype VMState = Stopped | Running | Starting | Stopping | Error

  /** network_mode: "routed_ptp", "shared_bridge", "" and any other text. */
  datatype NetworkMode = Routed | Shared | UnsetNetwork | OtherNetwork

  /** egress_mode: "allow_all", "deny_all", "restricted", "" and any other text. */
  datatype EgressMode = AllowAll | DenyAll | Restricted | UnsetEgress | OtherEgress

  datatype Protocol = Tcp | Udp

  /** The network columns of a VM row. No call changes them after the insert. */
  datatype Address = Address(mode: NetworkMode, hostIP: Option<u32>, guestIP: u32, prefix: int, networkId: Id)

  datatype VM = VM(
    id: Id, name: string, state: VMState, sshPort: int, tapName: string, net: Address,
    kernelId: Id, kernelPath: string, baseImageId: Id, sshKeyId: Id,
    egressMode: EgressMode, egressPolicyId: Id)

  datatype Network = Network(id: Id, name: string, cidr: IPNet, gateway: u32)

  datatype IngressRule = IngressRule(id: Id, vmId: Id, protocol: Protocol, hostPort: int, guestPort: int)

  datatype EgressPolicy = EgressPolicy(
    id: Id, name: string, mode: EgressMode, tcpPorts: seq<int>, udpPorts: seq<int>, cidrs: seq<IPNet>)

  datatype JobRow = JobRow(id: Id, vmId: Id)

  /** The database. `vms` is newest first, the order of ListVMs; `ingress` is ordered by host_port, the
      order of ListIngressRules; `kernelTests` are the kernel ids of the kernel test jobs. */
  datatype Tables = Tables(
    vms: seq<VM>, networks: seq<Network>, ingress: seq<IngressRule>, policies: seq<EgressPolicy>,
    sshKeys: set<Id>, kernels: map<Id, string>, images: set<Id>, jobs: seq<JobRow>,
    kernelTests: seq<Id>)

  const EMPTY_TABLES := Tables([], [], [], [], {}, map[], {}, [], [])

  function Filter<T(!new)>(s: seq<T>, keep: T -> bool): (r: seq<T>)
    ensures forall x :: x in r <==> x in s && keep(x)
  {
    if s == [] then []
    else (if keep(s[0]) then [s[0]] else []) + Filter(s[1..], keep)
  }

  lemma SubsetFull<T>(a: set<T>, b: set<T>)
    requires a <= b
    ensures |a| <= |b| && (|a| == |b| <==> a == b)
  {
    assert b == a + (b - a);
  }

  predicate IsActive(vm: VM) {
    vm.state == Running || vm.state == Starting
  }
}
