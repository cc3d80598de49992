/** Once two hosts have one subnet, further commands lead to devices of both with the same address:
    from every reachable store, not only from one run. */
module AddressSharing {
  import opened Bags
  import opened CidrList
  import opened ClusterRuns
  import opened ClusterState
  import opened EtcdClient
  import opened EtcdKeys
  import opened HostSubnets
  import opened PoolQueue

  /** A run that goes on where another one ends. */
  ghost predicate Continues(kvs: seq<Kv>, ops: seq<Op>, kvs': seq<Kv>, ops': seq<Op>) {
    IsKvRun(kvs, ops) && IsKvRun(kvs', ops') && ops <= ops' && kvs <= kvs'
  }

  lemma OneMore(kvs: seq<Kv>, ops: seq<Op>, op: Op) returns (kvs': seq<Kv>, ops': seq<Op>)
    requires IsKvRun(kvs, ops) && OpOk(op)
    ensures Continues(kvs, ops, kvs', ops') && |ops'| == |ops| + 1 && ops'[|ops|] == op
    ensures kvs'[|ops|] == kvs[|ops|]
  {
    kvs', ops' := kvs + [KvStep(kvs[|ops|], op)], ops + [op];
    forall k | 0 <= k < |ops'| ensures KvNext(kvs', ops', k) {
      if k < |ops| {
        assert KvNext(kvs, ops, k);
      }
    }
  }

  // ---- device ids not in use ----

  lemma {:induction false} LongerThanAll(used: set<string>) returns (n: nat)
    ensures forall s :: s in used ==> |s| < n
  {
    if used == {} {
      n := 0;
    } else {
      var s :| s in used;
      var m := LongerThanAll(used - {s});
      n := if |s| < m then m else |s| + 1;
    }
  }

  lemma UnusedId(used: set<string>) returns (id: string)
    ensures '-' in id && id !in used
  {
    var n := LongerThanAll(used);
    id := seq(n + 1, i => '-');
    assert id[0] == '-';
  }

  // ---- draining a queue ----

  /** The steps it takes to drain a queue. */
  function StepsToDrain(pool: HostState): nat {
    2 * |pool.free| + (if pool.blank then 1 else 0)
  }

  lemma AllocateDrains(pool: HostState, id: string)
    requires pool.free != [] && id !in pool.leases
    ensures StepsToDrain(HostStep(pool, Allocate(id))) < StepsToDrain(pool)
  {
  }

  ghost predicate HasPool(kv: Kv, h: string, subnet: string, pool: HostState) {
    HostName(h) && subnet != "" && Read(kv, Host(h)) == subnet && PoolOf(kv, h) == pool
  }

  lemma HasPoolStep(kvs: seq<Kv>, ops: seq<Op>, g: string, id: string, subnet: string, pool: HostState, h: string)
    requires IsKvRun(kvs, ops) && ops != [] && ops[|ops| - 1] == Add(g, id)
    requires HasPool(kvs[|ops| - 1], h, subnet, pool)
    ensures HasPool(kvs[|ops|], h, subnet, if g == h then HostStep(pool, Allocate(id)) else pool)
  {
    PoolStep(kvs, ops, |ops| - 1, h);
  }

  lemma BothSteps(kvs: seq<Kv>, ops: seq<Op>, g: string, id: string, subnet: string, pool: HostState,
                  h: string, other: HostState)
    requires IsKvRun(kvs, ops) && ops != [] && ops[|ops| - 1] == Add(g, id) && g != h
    requires HasPool(kvs[|ops| - 1], g, subnet, pool) && HasPool(kvs[|ops| - 1], h, subnet, other)
    ensures HasPool(kvs[|ops|], g, subnet, HostStep(pool, Allocate(id))) && HasPool(kvs[|ops|], h, subnet, other)
  {
    HasPoolStep(kvs, ops, g, id, subnet, pool, g);
    HasPoolStep(kvs, ops, g, id, subnet, other, h);
  }

  /** One more ADD of host g, seen from g and from another host. */
  lemma OneMoreAdd(kvs: seq<Kv>, ops: seq<Op>, g: string, subnet: string, pool: HostState, h: string, other: HostState)
    returns (kvs': seq<Kv>, ops': seq<Op>, pool': HostState)
    requires IsKvRun(kvs, ops) && g != h && pool.free != []
    requires HasPool(kvs[|ops|], g, subnet, pool) && HasPool(kvs[|ops|], h, subnet, other)
    ensures Continues(kvs, ops, kvs', ops')
    ensures HasPool(kvs'[|ops'|], g, subnet, pool') && HasPool(kvs'[|ops'|], h, subnet, other)
    ensures StepsToDrain(pool') < StepsToDrain(pool)
  {
    var id := UnusedId(pool.leases.Keys);
    kvs', ops' := AddOf(kvs, ops, g, id, subnet, pool, h, other);
    pool' := HostStep(pool, Allocate(id));
    AllocateDrains(pool, id);
  }

  lemma AddOf(kvs: seq<Kv>, ops: seq<Op>, g: string, id: string, subnet: string, pool: HostState,
              h: string, other: HostState)
    returns (kvs': seq<Kv>, ops': seq<Op>)
    requires IsKvRun(kvs, ops) && g != h && '-' in id
    requires HasPool(kvs[|ops|], g, subnet, pool) && HasPool(kvs[|ops|], h, subnet, other)
    ensures Continues(kvs, ops, kvs', ops')
    ensures HasPool(kvs'[|ops'|], g, subnet, HostStep(pool, Allocate(id))) && HasPool(kvs'[|ops'|], h, subnet, other)
  {
    kvs', ops' := OneMore(kvs, ops, Add(g, id));
    BothSteps(kvs', ops', g, id, subnet, pool, h, other);
  }

  lemma {:induction false} Drain(kvs: seq<Kv>, ops: seq<Op>, g: string, subnet: string, pool: HostState,
                                 h: string, other: HostState)
    returns (kvs': seq<Kv>, ops': seq<Op>, pool': HostState)
    requires IsKvRun(kvs, ops) && g != h
    requires HasPool(kvs[|ops|], g, subnet, pool) && HasPool(kvs[|ops|], h, subnet, other)
    ensures Continues(kvs, ops, kvs', ops')
    ensures HasPool(kvs'[|ops'|], g, subnet, pool') && HasPool(kvs'[|ops'|], h, subnet, other) && pool'.free == []
    decreases StepsToDrain(pool)
  {
    if pool.free == [] {
      kvs', ops', pool' := kvs, ops, pool;
    } else {
      var kvs1, ops1, pool1 := OneMoreAdd(kvs, ops, g, subnet, pool, h, other);
      kvs', ops', pool' := Drain(kvs1, ops1, g, subnet, pool1, h, other);
    }
  }

  /** A host whose queue is empty has a device for every address of its subnet. */
  lemma AllLeased(kvs: seq<Kv>, ops: seq<Op>, h: string, i: nat, pool: HostState, a: string) returns (id: string)
    requires IsKvRun(kvs, ops) && i < SUBNETS && HasPool(kvs[|ops|], h, SubnetText(i), pool) && pool.free == []
    requires a in SubnetIps(i)
    ensures '-' in id && Read(kvs[|ops|], Device(h, id)) == a
  {
    var n := PoolFacts(kvs, ops, |ops|, h);
    if n != i {
      SubnetsDisjoint(n, i);
    }
    id := HolderOf(pool, a, SubnetIps(i));
  }

  lemma HolderOf(pool: HostState, a: string, ips: seq<string>) returns (id: string)
    requires HostInv(pool, ips) && pool.free == [] && a in ips
    ensures id in pool.leases && pool.leases[id] == a
  {
    ValuesOfIn(pool.leases, a);
    assert a in multiset(ips) && multiset(pool.free) == multiset{};
    id :| id in pool.leases && pool.leases[id] == a;
  }

  /** Every address text of the subnet is held by a device of either host. */
  ghost predicate AllShared(kv: Kv, g: string, h: string, ips: seq<string>) {
    forall a :: a in ips ==>
      exists x, y :: '-' in x && '-' in y && Read(kv, Device(g, x)) == a && Read(kv, Device(h, y)) == a
  }

  /** From every reachable store in which two hosts have one subnet, further ADDs lead to a store in which
      each address of that subnet is held by a device of either host. */
  lemma OneSubnetIsShared(kvs: seq<Kv>, ops: seq<Op>, g: string, h: string) returns (kvs': seq<Kv>, ops': seq<Op>)
    requires IsKvRun(kvs, ops) && HostName(g) && HostName(h) && g != h
    requires Read(kvs[|ops|], Host(g)) == Read(kvs[|ops|], Host(h)) != ""
    ensures Continues(kvs, ops, kvs', ops')
    ensures ValidIps(Read(kvs[|ops|], Host(g))).Ok? && |ValidIps(Read(kvs[|ops|], Host(g))).value| == 14
    ensures AllShared(kvs'[|ops'|], g, h, ValidIps(Read(kvs[|ops|], Host(g))).value)
  {
    var i := PoolFacts(kvs, ops, |ops|, g);
    SubnetLists(i);
    SubnetCount(i);
    kvs', ops' := DrainBoth(kvs, ops, g, h, i);
  }

  lemma DrainBoth(kvs: seq<Kv>, ops: seq<Op>, g: string, h: string, i: nat) returns (kvs': seq<Kv>, ops': seq<Op>)
    requires IsKvRun(kvs, ops) && HostName(g) && HostName(h) && g != h && i < SUBNETS
    requires Read(kvs[|ops|], Host(g)) == Read(kvs[|ops|], Host(h)) == SubnetText(i)
    ensures Continues(kvs, ops, kvs', ops')
    ensures AllShared(kvs'[|ops'|], g, h, SubnetIps(i))
  {
    SubnetTextGood(i);
    var subnet, other := SubnetText(i), PoolOf(kvs[|ops|], h);
    var kvs1, ops1, pool := Drain(kvs, ops, g, subnet, PoolOf(kvs[|ops|], g), h, other);
    var pool';
    kvs', ops', pool' := Drain(kvs1, ops1, h, subnet, other, g, pool);
    forall a | a in SubnetIps(i)
      ensures exists x, y :: '-' in x && '-' in y
                && Read(kvs'[|ops'|], Device(g, x)) == a && Read(kvs'[|ops'|], Device(h, y)) == a
    {
      var x := AllLeased(kvs', ops', g, i, pool, a);
      var y := AllLeased(kvs', ops', h, i, pool', a);
    }
  }

  /** From every reachable store in which more than 16 hosts have run an ADD, further ADDs lead to two
      devices of different hosts with the same address. */
  lemma MoreThanSixteenShare(kvs: seq<Kv>, ops: seq<Op>)
    returns (kvs': seq<Kv>, ops': seq<Op>, g: string, x: string, h: string, y: string)
    requires IsKvRun(kvs, ops) && |AddHosts(ops, |ops|)| > 16
    ensures Continues(kvs, ops, kvs', ops') && g != h && '-' in x && '-' in y
    ensures Read(kvs'[|ops'|], Device(g, x)) == Read(kvs'[|ops'|], Device(h, y)) != ""
  {
    g, h := SameSubnet(kvs, ops);
    var i := PoolFacts(kvs, ops, |ops|, g);
    kvs', ops' := DrainBoth(kvs, ops, g, h, i);
    SubnetCount(i);
    SubnetIpsGood(i);
    var a := SubnetIps(i)[0];
    x, y := Sharers(kvs'[|ops'|], g, h, SubnetIps(i), a);
  }

  lemma Sharers(kv: Kv, g: string, h: string, ips: seq<string>, a: string) returns (x: string, y: string)
    requires AllShared(kv, g, h, ips) && a in ips
    ensures '-' in x && '-' in y && Read(kv, Device(g, x)) == a && Read(kv, Device(h, y)) == a
  {
    x, y :| '-' in x && '-' in y && Read(kv, Device(g, x)) == a && Read(kv, Device(h, y)) == a;
  }

  lemma SameSubnet(kvs: seq<Kv>, ops: seq<Op>) returns (g: string, h: string)
    requires IsKvRun(kvs, ops) && |AddHosts(ops, |ops|)| > 16
    ensures HostName(g) && HostName(h) && g != h
    ensures Read(kvs[|ops|], Host(g)) == Read(kvs[|ops|], Host(h)) != ""
  {
    SubnetsDifferIff(kvs, ops, |ops|);
    var kv := kvs[|ops|];
    g, h :| HostName(g) && HostName(h) && g != h && Read(kv, Host(g)) == Read(kv, Host(h)) != "";
  }
}
