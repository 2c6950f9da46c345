/** The database object of internal/store/store.go. */
module Store {
  import opened Model
  import D = Database

  class Store {
    var tables: Tables

    constructor ()
      ensures tables == EMPTY_TABLES
    {
      tables := EMPTY_TABLES;
    }

    method CreateVM(vm: VM) returns (ok: bool)
      modifies this
      ensures ok == D.InsertVM(old(tables), vm).Some?
      ensures tables == if ok then D.InsertVM(old(tables), vm).value else old(tables)
      ensures ok <==> forall w :: w in old(tables.vms) ==>
                w.id != vm.id && w.name != vm.name && w.sshPort != vm.sshPort && w.tapName != vm.tapName
                && w.net.guestIP != vm.net.guestIP
      ensures tables == if ok then old(tables).(vms := [vm] + old(tables.vms)) else old(tables)
    {
      ok := !exists w :: w in tables.vms && D.Clash(vm, w);
      if ok {
        tables := tables.(vms := [vm] + tables.vms);
      }
    }

    /** UPDATE of a whole row; the row is matched by id. */
    method UpdateVM(vm: VM) returns (ok: bool)
      modifies this
      ensures ok == D.UpdateVM(old(tables), vm).Some?
      ensures tables == if ok then D.UpdateVM(old(tables), vm).value else old(tables)
      ensures ok <==> (forall w :: w in old(tables.vms) ==> w.id != vm.id)
                      || forall w :: w in old(tables.vms) && w.id != vm.id ==>
                           w.name != vm.name && w.sshPort != vm.sshPort && w.tapName != vm.tapName
                           && w.net.guestIP != vm.net.guestIP
      ensures ok ==> |tables.vms| == |old(tables.vms)| && tables == old(tables).(vms := tables.vms)
      ensures ok ==> forall i :: 0 <= i < |tables.vms| ==>
                tables.vms[i] == if old(tables.vms)[i].id == vm.id then vm else old(tables.vms)[i]
    {
      var vms, found := [], false;
      for i := 0 to |tables.vms|
        invariant |vms| == i && found == exists j :: 0 <= j < i && tables.vms[j].id == vm.id
        invariant tables == old(tables)
        invariant forall j :: 0 <= j < i ==> vms[j] == if tables.vms[j].id == vm.id then vm else tables.vms[j]
      {
        if tables.vms[i].id == vm.id {
          vms, found := vms + [vm], true;
        } else {
          vms := vms + [tables.vms[i]];
        }
      }
      assert vms == D.ReplaceVM(tables.vms, vm);
      assert found == exists w :: w in tables.vms && w.id == vm.id;
      ok := !found || !exists w :: w in tables.vms && w.id != vm.id && D.Clash(vm, w);
      if ok {
        tables := tables.(vms := vms);
      }
    }

    /** Three DELETE statements. */
    method DeleteVM(id: Id)
      modifies this
      ensures tables == D.DeleteVM(old(tables), id)
      ensures forall v :: v in tables.vms <==> v in old(tables.vms) && v.id != id
      ensures forall r :: r in tables.ingress <==> r in old(tables.ingress) && r.vmId != id
      ensures forall j :: j in tables.jobs <==> j in old(tables.jobs) && j.vmId != id
      ensures tables == old(tables).(vms := tables.vms, ingress := tables.ingress, jobs := tables.jobs)
    {
      tables := tables.(ingress := Filter(tables.ingress, (r: IngressRule) => r.vmId != id));
      tables := tables.(jobs := Filter(tables.jobs, (j: JobRow) => j.vmId != id));
      tables := tables.(vms := Filter(tables.vms, (v: VM) => v.id != id));
    }

    method CreateNetwork(n: Network) returns (ok: bool)
      modifies this
      ensures ok == D.InsertNetwork(old(tables), n).Some?
      ensures tables == if ok then D.InsertNetwork(old(tables), n).value else old(tables)
      ensures ok <==> forall m :: m in old(tables.networks) ==> m.id != n.id && m.name != n.name && m.cidr != n.cidr
      ensures ok ==> tables == old(tables).(networks := [n] + old(tables.networks))
    {
      ok := !exists m :: m in tables.networks && D.NetworkClash(n, m);
      if ok {
        tables := tables.(networks := [n] + tables.networks);
      }
    }

    method DeleteNetwork(id: Id) returns (ok: bool)
      modifies this
      ensures ok == D.DeleteNetwork(old(tables), id).Some?
      ensures tables == if ok then D.DeleteNetwork(old(tables), id).value else old(tables)
      ensures ok <==> forall v :: v in old(tables.vms) ==> v.net.networkId != id
      ensures forall n :: n in tables.networks <==> n in old(tables.networks) && (ok ==> n.id != id)
      ensures tables == old(tables).(networks := tables.networks)
    {
      ok := !exists v :: v in tables.vms && v.net.networkId == id;
      if ok {
        tables := tables.(networks := Filter(tables.networks, (n: Network) => n.id != id));
      }
    }

    method CreateIngressRule(r: IngressRule) returns (ok: bool)
      modifies this
      ensures ok == D.InsertIngressRule(old(tables), r).Some?
      ensures tables == if ok then D.InsertIngressRule(old(tables), r).value else old(tables)
      ensures ok <==> forall x :: x in old(tables.ingress) ==> x.id != r.id && x.hostPort != r.hostPort
      ensures forall x :: x in tables.ingress <==> x in old(tables.ingress) || (ok && x == r)
      ensures tables == old(tables).(ingress := tables.ingress)
    {
      ok := !exists x :: x in tables.ingress && (x.id == r.id || x.hostPort == r.hostPort);
      if ok {
        tables := tables.(ingress := D.InsertByPort(tables.ingress, r));
      }
    }

    method DeleteIngressRule(vmId: Id, id: Id)
      modifies this
      ensures tables == D.DeleteIngressRule(old(tables), vmId, id)
      ensures forall r :: r in tables.ingress <==> r in old(tables.ingress) && (r.vmId != vmId || r.id != id)
      ensures tables == old(tables).(ingress := tables.ingress)
    {
      tables := tables.(ingress := Filter(tables.ingress, (r: IngressRule) => !(r.vmId == vmId && r.id == id)));
    }

    method CreateEgressPolicy(p: EgressPolicy) returns (ok: bool)
      modifies this
      ensures ok == D.InsertEgressPolicy(old(tables), p).Some?
      ensures tables == if ok then D.InsertEgressPolicy(old(tables), p).value else old(tables)
      ensures ok <==> forall q :: q in old(tables.policies) ==> q.id != p.id && q.name != p.name
      ensures ok ==> tables == old(tables).(policies := [p] + old(tables.policies))
    {
      ok := !exists q :: q in tables.policies && (q.id == p.id || q.name == p.name);
      if ok {
        tables := tables.(policies := [p] + tables.policies);
      }
    }

    method DeleteEgressPolicy(id: Id) returns (ok: bool)
      modifies this
      ensures ok == D.DeleteEgressPolicy(old(tables), id).Some?
      ensures tables == if ok then D.DeleteEgressPolicy(old(tables), id).value else old(tables)
      ensures ok <==> forall v :: v in old(tables.vms) ==> v.egressPolicyId != id
      ensures forall p :: p in tables.policies <==> p in old(tables.policies) && (ok ==> p.id != id)
      ensures tables == old(tables).(policies := tables.policies)
    {
      ok := !exists v :: v in tables.vms && v.egressPolicyId == id;
      if ok {
        tables := tables.(policies := Filter(tables.policies, (p: EgressPolicy) => p.id != id));
      }
    }

    method DeleteSSHKey(id: Id) returns (ok: bool)
      modifies this
      ensures ok == D.DeleteSSHKey(old(tables), id).Some?
      ensures tables == if ok then D.DeleteSSHKey(old(tables), id).value else old(tables)
      ensures ok <==> forall v :: v in old(tables.vms) ==> v.sshKeyId != id
      ensures forall k :: k in tables.sshKeys <==> k in old(tables.sshKeys) && (ok ==> k != id)
    {
      ok := !exists v :: v in tables.vms && v.sshKeyId == id;
      if ok {
        tables := tables.(sshKeys := tables.sshKeys - {id});
      }
    }

    method DeleteBaseImage(id: Id) returns (ok: bool)
      modifies this
      ensures ok == D.DeleteBaseImage(old(tables), id).Some?
      ensures tables == if ok then D.DeleteBaseImage(old(tables), id).value else old(tables)
      ensures ok <==> forall v :: v in old(tables.vms) ==> v.baseImageId != id
      ensures forall i :: i in tables.images <==> i in old(tables.images) && (ok ==> i != id)
    {
      ok := !exists v :: v in tables.vms && v.baseImageId == id;
      if ok {
        tables := tables.(images := tables.images - {id});
      }
    }

    method DeleteKernel(id: Id) returns (ok: bool)
      modifies this
      ensures ok == D.DeleteKernel(old(tables), id).Some?
      ensures tables == if ok then D.DeleteKernel(old(tables), id).value else old(tables)
      ensures id in old(tables.kernels) ==>
                (ok <==> forall v :: v in old(tables.vms) ==>
                                       v.kernelId != id && v.kernelPath != old(tables.kernels)[id])
      ensures forall k :: k in tables.kernels <==> k in old(tables.kernels) && (ok ==> k != id)
      ensures ok && id in old(tables.kernels) ==> id !in tables.kernelTests
      ensures forall k :: k in tables.kernelTests && k != id <==> k in old(tables.kernelTests) && k != id
    {
      if id !in tables.kernels {
        return true;
      }
      ok := !exists v :: v in tables.vms && (v.kernelId == id || v.kernelPath == tables.kernels[id]);
      if ok {
        tables := tables.(kernelTests := Filter(tables.kernelTests, (k: Id) => k != id));
        tables := tables.(kernels := tables.kernels - {id});
      }
    }
  }
}
