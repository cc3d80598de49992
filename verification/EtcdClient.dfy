/** The etcd store every plugin process shares, its wrapped client (etcdwrap/client.go), and the seeding
    of the cluster pool (plugins/ipam/etcdmode/initpool/init_conf.go). */
module EtcdClient {
  import opened EtcdKeys
  import opened Text

  class Etcd {
    var kv: Kv

    constructor ()
      ensures kv == map[]
    {
      kv := map[];
    }
  }

  class WrappedClient {
    const etcd: Etcd
    var poolInitStatus: bool

    constructor (etcd: Etcd)
      ensures this.etcd == etcd && !poolInitStatus
    {
      this.etcd := etcd;
      poolInitStatus := false;
    }

    method GetKV(key: string) returns (value: string)
      ensures value == Get(etcd.kv, key)
    {
      value := if key in etcd.kv then etcd.kv[key] else "";
    }

    method PutKV(key: string, value: string)
      modifies etcd
      ensures etcd.kv == old(etcd.kv)[key := value]
    {
      etcd.kv := etcd.kv[key := value];
    }

    method DelKV(key: string)
      modifies etcd
      ensures etcd.kv == old(etcd.kv) - {key}
    {
      etcd.kv := etcd.kv - {key};
    }

    method SetInitPoolStatus(stat: bool)
      modifies this`poolInitStatus
      ensures poolInitStatus == stat
    {
      poolInitStatus := stat;
    }

    /** The pool counts as initialised when its text is not blank; the field is not consulted, so a pool
        that has been handed out completely counts as never seeded. */
    method GetInitPoolStatus() returns (ready: bool)
      ensures ready <==> Read(etcd.kv, Pool) != ""
    {
      var resp := GetKV(GetIPPoolPath());
      ready := resp != "";
    }
  }

  // ---- seeding the cluster pool ----

  const SUBNETS: nat := 16

  /** The i-th host subnet of the cluster, from 0. */
  function SubnetText(i: nat): string {
    "10.1." + Itoa(i + 1) + ".0/28"
  }

  function Subnets(): (r: seq<string>)
    ensures |r| == SUBNETS && forall i :: 0 <= i < SUBNETS ==> r[i] == SubnetText(i)
  {
    seq(SUBNETS, i requires 0 <= i => SubnetText(i))
  }

  method RandomGenerateIpCIDRs() returns (ans: array<string>)
    ensures fresh(ans) && ans[..] == Subnets()
  {
    ans := new string[16];
    var i := 0;
    while i < 16
      invariant 0 <= i <= 16
      invariant forall k :: 0 <= k < i ==> ans[k] == SubnetText(k)
    {
      ans[i] := SubnetText(i);
      i := i + 1;
    }
  }

  /** What seeding does to the store: nothing while the pool has text. */
  function Seeded(kv: Kv): Kv {
    if Read(kv, Pool) == "" then Write(kv, Pool, Join(Subnets(), ';')) else kv
  }

  method InitPool(cli: WrappedClient)
    modifies cli.etcd, cli`poolInitStatus
    ensures cli.etcd.kv == Seeded(old(cli.etcd.kv))
    ensures cli.poolInitStatus == (if Read(old(cli.etcd.kv), Pool) == "" then true else old(cli.poolInitStatus))
  {
    var ips := RandomGenerateIpCIDRs();
    var ipCIDRs := Join(ips[..], ';');
    var ready := cli.GetInitPoolStatus();
    if !ready {
      cli.PutKV(GetIPPoolPath(), ipCIDRs);
      cli.SetInitPoolStatus(true);
    }
  }
}
