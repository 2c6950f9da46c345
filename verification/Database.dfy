/** What the statements of internal/store/store.go do to the tables: UNIQUE constraints, guarded deletes and
    cascades. Each function is one atomic step. */
module Database {
  import opened Cidr
  import opened Model

  // ---------------------------------------------------------------------------------------------
  // Rows of table vms

  /** Two rows that one of the UNIQUE columns id, name, ssh_port, tap_name, guest_ip keeps apart. */
  predicate Clash(v: VM, w: VM) {
    v.id == w.id || v.name == w.name || v.sshPort == w.sshPort || v.tapName == w.tapName
    || v.net.guestIP == w.net.guestIP
  }

  predicate Distinct(vms: seq<VM>) {
    vms == [] || (Distinct(vms[1..]) && forall w :: w in vms[1..] ==> !Clash(vms[0], w))
  }

  lemma {:induction false} DistinctRows(vms: seq<VM>, v: VM, w: VM)
    requires Distinct(vms) && v in vms && w in vms && Clash(v, w)
    ensures v == w
  {
    if v == vms[0] {
    } else if w == vms[0] {
      assert Clash(w, v);
    } else {
      DistinctRows(vms[1..], v, w);
    }
  }

  lemma {:induction false} DistinctFilter(vms: seq<VM>, keep: VM -> bool)
    requires Distinct(vms)
    ensures Distinct(Filter(vms, keep))
  {
    if vms == [] {
    } else {
      DistinctFilter(vms[1..], keep);
      var r := Filter(vms, keep);
      if keep(vms[0]) {
        assert r[1..] == Filter(vms[1..], keep);
      } else {
        assert r == Filter(vms[1..], keep);
      }
    }
  }

  function FindVM(vms: seq<VM>, id: Id): (r: Option<VM>)
    ensures r.Some? ==> r.value in vms && r.value.id == id
    ensures r.None? ==> forall v :: v in vms ==> v.id != id
  {
    if vms == [] then None
    else if vms[0].id == id then Some(vms[0])
    else FindVM(vms[1..], id)
  }

  /** UPDATE vms SET ... WHERE id = vm.id: the whole row is replaced, a missing row stays missing. */
  function ReplaceVM(vms: seq<VM>, vm: VM): (r: seq<VM>)
    ensures |r| == |vms|
    ensures forall i :: 0 <= i < |vms| ==> r[i] == if vms[i].id == vm.id then vm else vms[i]
  {
    seq(|vms|, i requires 0 <= i < |vms| => if vms[i].id == vm.id then vm else vms[i])
  }

  lemma ReplaceVMRows(vms: seq<VM>, vm: VM)
    ensures forall v :: v in ReplaceVM(vms, vm) ==>
                          (v == vm && exists w :: w in vms && w.id == vm.id) || (v in vms && v.id != vm.id)
    ensures forall v :: v in vms && v.id != vm.id ==> v in ReplaceVM(vms, vm)
    ensures (exists w :: w in vms && w.id == vm.id) ==> vm in ReplaceVM(vms, vm)
  {
    var r := ReplaceVM(vms, vm);
    forall v | v in vms && v.id != vm.id
      ensures v in r
    {
      var i :| 0 <= i < |vms| && vms[i] == v;
      assert r[i] == v;
    }
    if w :| w in vms && w.id == vm.id {
      var i :| 0 <= i < |vms| && vms[i] == w;
      assert r[i] == vm;
    }
  }

  lemma {:induction false} ReplaceVMDistinct(vms: seq<VM>, vm: VM)
    requires Distinct(vms) && forall w :: w in vms && Clash(vm, w) ==> w.id == vm.id
    ensures Distinct(ReplaceVM(vms, vm))
  {
    if vms == [] {
    } else {
      var r := ReplaceVM(vms, vm);
      assert r[1..] == ReplaceVM(vms[1..], vm);
      ReplaceVMDistinct(vms[1..], vm);
      forall w | w in r[1..]
        ensures !Clash(r[0], w)
      {
        ReplaceVMRows(vms[1..], vm);
        if r[0] == vms[0] && w == vm {
          assert Clash(vms[0], vm) ==> Clash(vm, vms[0]);
        }
      }
    }
  }

  // ---------------------------------------------------------------------------------------------
  // The statements

  function GetVM(t: Tables, id: Id): Option<VM> {
    FindVM(t.vms, id)
  }

  /** INSERT INTO vms: None is a failed UNIQUE constraint. */
  function InsertVM(t: Tables, vm: VM): Option<Tables> {
    if exists w :: w in t.vms && Clash(vm, w) then None
    else Some(t.(vms := [vm] + t.vms))
  }

  function UpdateVM(t: Tables, vm: VM): Option<Tables> {
    if (exists w :: w in t.vms && w.id == vm.id) && (exists w :: w in t.vms && w.id != vm.id && Clash(vm, w)) then None
    else Some(t.(vms := ReplaceVM(t.vms, vm)))
  }

  /** Deletes the row with its ingress rules and exec jobs. */
  function DeleteVM(t: Tables, id: Id): Tables {
    t.(vms := Filter(t.vms, (v: VM) => v.id != id),
       ingress := Filter(t.ingress, (r: IngressRule) => r.vmId != id),
       jobs := Filter(t.jobs, (j: JobRow) => j.vmId != id))
  }

  function UsedGuestIPs(t: Tables): set<u32> {
    set v | v in t.vms :: v.net.guestIP
  }

  function UsedSSHPorts(t: Tables): set<int> {
    set v | v in t.vms :: v.sshPort
  }

  function UsedIngressHostPorts(t: Tables): set<int> {
    set r | r in t.ingress :: r.hostPort
  }

  function FindNetwork(networks: seq<Network>, id: Id): (r: Option<Network>)
    ensures r.Some? ==> r.value in networks && r.value.id == id
    ensures r.None? ==> forall n :: n in networks ==> n.id != id
  {
    if networks == [] then None
    else if networks[0].id == id then Some(networks[0])
    else FindNetwork(networks[1..], id)
  }

  function GetNetwork(t: Tables, id: Id): Option<Network> {
    FindNetwork(t.networks, id)
  }

  predicate NetworkClash(n: Network, m: Network) {
    n.id == m.id || n.name == m.name || n.cidr == m.cidr
  }

  function InsertNetwork(t: Tables, n: Network): Option<Tables> {
    if exists m :: m in t.networks && NetworkClash(n, m) then None
    else Some(t.(networks := [n] + t.networks))
  }

  /** Refused while any VM row, shared or not, names the network. */
  function DeleteNetwork(t: Tables, id: Id): Option<Tables> {
    if exists v :: v in t.vms && v.net.networkId == id then None
    else Some(t.(networks := Filter(t.networks, (n: Network) => n.id != id)))
  }

  function InsertByPort(rules: seq<IngressRule>, r: IngressRule): (s: seq<IngressRule>)
    ensures forall x :: x in s <==> x == r || x in rules
  {
    if rules == [] || r.hostPort <= rules[0].hostPort then [r] + rules
    else [rules[0]] + InsertByPort(rules[1..], r)
  }

  function InsertIngressRule(t: Tables, r: IngressRule): Option<Tables> {
    if exists x :: x in t.ingress && (x.id == r.id || x.hostPort == r.hostPort) then None
    else Some(t.(ingress := InsertByPort(t.ingress, r)))
  }

  function ListIngressRules(t: Tables, vmId: Id): seq<IngressRule> {
    Filter(t.ingress, (r: IngressRule) => r.vmId == vmId)
  }

  function DeleteIngressRule(t: Tables, vmId: Id, id: Id): Tables {
    t.(ingress := Filter(t.ingress, (r: IngressRule) => !(r.vmId == vmId && r.id == id)))
  }

  function FindPolicy(policies: seq<EgressPolicy>, id: Id): (r: Option<EgressPolicy>)
    ensures r.Some? ==> r.value in policies && r.value.id == id
    ensures r.None? ==> forall p :: p in policies ==> p.id != id
  {
    if policies == [] then None
    else if policies[0].id == id then Some(policies[0])
    else FindPolicy(policies[1..], id)
  }

  function GetEgressPolicy(t: Tables, id: Id): Option<EgressPolicy> {
    FindPolicy(t.policies, id)
  }

  function InsertEgressPolicy(t: Tables, p: EgressPolicy): Option<Tables> {
    if exists q :: q in t.policies && (q.id == p.id || q.name == p.name) then None
    else Some(t.(policies := [p] + t.policies))
  }

  function DeleteEgressPolicy(t: Tables, id: Id): Option<Tables> {
    if exists v :: v in t.vms && v.egressPolicyId == id then None
    else Some(t.(policies := Filter(t.policies, (p: EgressPolicy) => p.id != id)))
  }

  function DeleteSSHKey(t: Tables, id: Id): Option<Tables> {
    if exists v :: v in t.vms && v.sshKeyId == id then None
    else Some(t.(sshKeys := t.sshKeys - {id}))
  }

  function DeleteBaseImage(t: Tables, id: Id): Option<Tables> {
    if exists v :: v in t.vms && v.baseImageId == id then None
    else Some(t.(images := t.images - {id}))
  }

  /** Refused while a VM row names the kernel or its path; a missing kernel is no error. The kernel's test jobs go with
      it. */
  function DeleteKernel(t: Tables, id: Id): Option<Tables> {
    if id !in t.kernels then Some(t)
    else if exists v :: v in t.vms && (v.kernelId == id || v.kernelPath == t.kernels[id]) then None
    else Some(t.(kernels := t.kernels - {id}, kernelTests := Filter(t.kernelTests, (k: Id) => k != id)))
  }
}
