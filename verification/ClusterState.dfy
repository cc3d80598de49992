/** The whole etcd-mode cluster: many hosts, each running ADD and DEL as whole operations against the
    shared store. Cluster is the abstract state; the text in the store is proved to represent it. */
module ClusterState {
  import opened Allocator
  import opened EtcdClient
  import opened EtcdKeys
  import opened HostSubnets
  import opened PoolQueue
  import opened Results
  import opened Text

  datatype Op = Add(host: string, id: string) | Del(host: string, id: string)

  predicate OpOk(op: Op) {
    HostName(op.host) && '-' in op.id
  }

  function KvStep(kv: Kv, op: Op): Kv {
    match op
    case Add(h, id) => AddEffect(kv, h, id).0
    case Del(h, id) => PodRelease(kv, h, id)
  }

  /** order is the position at which the host took its subnet, counted from the first seeding. */
  datatype Member = Member(order: nat, subnet: string, gateway: string, pool: HostState)

  datatype Cluster = Cluster(taken: seq<string>, hosts: map<string, Member>)

  function SubnetIndex(order: nat): (i: nat)
    ensures i < SUBNETS
  {
    order % 16
  }

  function Joined(c: Cluster, h: string): Cluster {
    if h in c.hosts then c
    else
      Cluster(c.taken + [h],
              c.hosts[h := NewMember(|c.taken|)])
  }

  function NewMember(order: nat): Member {
    var i := SubnetIndex(order);
    Member(order, SubnetText(i), GatewayText(i), FreshHost(SubnetIps(i)))
  }

  function WithPool(c: Cluster, h: string, op: HostOp): Cluster
    requires h in c.hosts
  {
    c.(hosts := c.hosts[h := c.hosts[h].(pool := HostStep(c.hosts[h].pool, op))])
  }

  function Step(c: Cluster, op: Op): Cluster {
    match op
    case Add(h, id) => WithPool(Joined(c, h), h, Allocate(id))
    case Del(h, id) => if h in c.hosts then WithPool(c, h, Release(id)) else c
  }

  // ---- the abstract invariant ----

  ghost predicate MemberInv(m: Member) {
    && m.subnet == SubnetText(SubnetIndex(m.order))
    && m.gateway == GatewayText(SubnetIndex(m.order))
    && HostInv(m.pool, SubnetIps(SubnetIndex(m.order)))
    && forall id :: id in m.pool.leases ==> '-' in id
  }

  ghost predicate ClusterInv(c: Cluster) {
    && (forall h :: h in c.hosts ==> HostName(h) && c.hosts[h].order < |c.taken| && c.taken[c.hosts[h].order] == h)
    && (forall t :: 0 <= t < |c.taken| ==> c.taken[t] in c.hosts && c.hosts[c.taken[t]].order == t)
    && (forall h :: h in c.hosts ==> MemberInv(c.hosts[h]))
  }

  lemma JoinedKeepsInv(c: Cluster, h: string)
    requires ClusterInv(c) && HostName(h)
    ensures ClusterInv(Joined(c, h)) && h in Joined(c, h).hosts
  {
    if h !in c.hosts {
      NewMemberInv(|c.taken|);
      InsertKeepsInv(c, h, NewMember(|c.taken|));
    }
  }

  lemma InsertKeepsInv(c: Cluster, h: string, m: Member)
    requires ClusterInv(c) && HostName(h) && h !in c.hosts && MemberInv(m) && m.order == |c.taken|
    ensures ClusterInv(Cluster(c.taken + [h], c.hosts[h := m]))
  {
  }

  lemma NewMemberInv(order: nat)
    ensures MemberInv(NewMember(order)) && NewMember(order).order == order
  {
    SubnetCount(SubnetIndex(order));
  }

  lemma MemberStepKeepsInv(m: Member, op: HostOp)
    requires MemberInv(m) && '-' in op.id
    ensures MemberInv(m.(pool := HostStep(m.pool, op)))
  {
    HostStepKeepsInv(m.pool, op, SubnetIps(SubnetIndex(m.order)));
  }

  lemma WithPoolKeepsInv(c: Cluster, h: string, op: HostOp)
    requires ClusterInv(c) && h in c.hosts && '-' in op.id
    ensures ClusterInv(WithPool(c, h, op))
  {
    MemberStepKeepsInv(c.hosts[h], op);
  }

  // ---- how the store represents it ----

  function LeaseText(pool: HostState, id: string): string {
    if id in pool.leases then pool.leases[id] else ""
  }

  /** The cluster pool's text after n takes: the subnets not yet taken since the last seeding; after
      every sixteenth take nothing is left and the text is blank. */
  predicate PoolRepr(text: string, n: nat) {
    text == Join(Subnets()[SubnetIndex(n)..], ';') || (text == "" && SubnetIndex(n) == 0)
  }

  ghost predicate HostRepr(v: View, c: Cluster, h: string) {
    if h in c.hosts then
      var m := c.hosts[h];
      && At(v, Host(h)) == m.subnet
      && At(v, HostGateway(h)) == m.gateway
      && Split(At(v, HostPool(h)), ';') == TokensOf(m.pool)
      && forall id :: '-' in id ==> At(v, Device(h, id)) == LeaseText(m.pool, id)
    else
      && At(v, Host(h)) == ""
      && forall id :: '-' in id ==> At(v, Device(h, id)) == ""
  }

  ghost predicate HostsRepr(v: View, c: Cluster) {
    forall h :: HostName(h) ==> HostRepr(v, c, h)
  }

  ghost predicate ReprV(v: View, c: Cluster) {
    ClusterInv(c) && PoolRepr(At(v, Pool), |c.taken|) && HostsRepr(v, c)
  }

  ghost predicate Repr(kv: Kv, c: Cluster) {
    ReprV(ViewOf(kv), c)
  }

  /** A host is represented by its own keys alone. */
  lemma HostFrame(v: View, c: Cluster, v': View, c': Cluster, h: string)
    requires HostRepr(v, c, h)
    requires (h in c.hosts <==> h in c'.hosts) && (h in c.hosts ==> c'.hosts[h] == c.hosts[h])
    requires forall k: Key :: !k.Pool? && k.host == h ==> At(v', k) == At(v, k)
    ensures HostRepr(v', c', h)
  {
  }

  // ---- seeding and taking a subnet ----

  /** The head and the rest of a joined tail of a list. */
  lemma JoinedTail(all: seq<string>, i: nat)
    requires i < |all| && GoodTokens(all)
    ensures Join(all[i..], ';') != ""
    ensures var tokens := Split(Join(all[i..], ';'), ';'); tokens[0] == all[i] && tokens[1..] == all[i + 1..]
  {
    var rest := all[i..];
    SplitJoinPlain(rest, ';');
    assert rest[0] == all[i] && rest[1..] == all[i + 1..];
  }

  lemma SubnetsGood()
    ensures GoodTokens(Subnets())
  {
    forall i | 0 <= i < |Subnets()| ensures GoodToken(Subnets()[i]) {
      SubnetTextGood(i);
    }
  }

  /** Seeding rewrites the pool only when no untaken subnet is left. */
  lemma SeededRepr(kv: Kv, c: Cluster)
    requires Repr(kv, c)
    ensures Repr(Seeded(kv), c)
    ensures At(ViewOf(Seeded(kv)), Pool) == Join(Subnets()[SubnetIndex(|c.taken|)..], ';')
    ensures Seeded(kv) != kv ==> SubnetIndex(|c.taken|) == 0
  {
    SeededView(kv);
    SeededText(At(ViewOf(kv), Pool), |c.taken|);
    SeededReprV(ViewOf(kv), ViewOf(Seeded(kv)), c);
  }

  lemma SeededText(text: string, n: nat)
    requires PoolRepr(text, n)
    ensures text == "" ==> SubnetIndex(n) == 0
    ensures (if text == "" then Join(Subnets(), ';') else text) == Join(Subnets()[SubnetIndex(n)..], ';')
  {
    SubnetsGood();
    JoinedTail(Subnets(), SubnetIndex(n));
    assert Subnets()[0..] == Subnets();
  }

  lemma SeededView(kv: Kv)
    ensures var v := ViewOf(kv);
            ViewOf(Seeded(kv)) == if At(v, Pool) == "" then v[Pool := Join(Subnets(), ';')] else v
    ensures At(ViewOf(kv), Pool) != "" ==> Seeded(kv) == kv
  {
    assert Pool.Wf();
    WriteView(kv, Pool, Join(Subnets(), ';'));
  }

  lemma SeededReprV(v: View, v': View, c: Cluster)
    requires ReprV(v, c)
    requires forall k: Key :: !k.Pool? ==> At(v', k) == At(v, k)
    requires PoolRepr(At(v', Pool), |c.taken|)
    ensures ReprV(v', c)
  {
    forall h | HostName(h) ensures HostRepr(v', c, h) {
      HostFrame(v, c, v', c, h);
    }
  }

  lemma IpsText(i: nat)
    requires i < SUBNETS
    ensures Split(Join(SubnetIps(i), ';'), ';') == TokensOf(FreshHost(SubnetIps(i)))
  {
    SubnetCount(i);
    SubnetIpsGood(i);
    SplitJoinPlain(SubnetIps(i), ';');
    assert [] + SubnetIps(i) == SubnetIps(i);
  }

  /** The pool after a take. */
  lemma PoolAfterTake(n: nat)
    ensures var i := SubnetIndex(n);
            var tokens := Split(Join(Subnets()[i..], ';'), ';');
            tokens[0] == SubnetText(i) && PoolRepr(Join(tokens[1..], ';'), n + 1)
  {
    var i := SubnetIndex(n);
    SubnetsGood();
    JoinedTail(Subnets(), i);
    NextIndex(n);
    if i == 15 {
      assert Subnets()[16..] == [];
    }
  }

  lemma NextIndex(n: nat)
    ensures SubnetIndex(n + 1) == if SubnetIndex(n) == 15 then 0 else SubnetIndex(n) + 1
  {
  }

  /** A host's first allocation gives it the next untaken subnet. */
  lemma TakeReprV(v: View, c: Cluster, h: string, v': View)
    requires ReprV(v, c) && HostName(h) && h !in c.hosts
    requires At(v, Pool) == Join(Subnets()[SubnetIndex(|c.taken|)..], ';')
    requires forall k: Key :: k.Wf() ==> k in v
    requires var i := SubnetIndex(|c.taken|); v' == JoinView(v, h, SubnetText(i), GatewayText(i), SubnetIps(i))
    ensures ReprV(v', Joined(c, h))
  {
    var i := SubnetIndex(|c.taken|);
    JoinedKeepsInv(c, h);
    IpsText(i);
    PoolAfterTake(|c.taken|);
    TakeView(v, c, h, v', NewMember(|c.taken|), SubnetIps(i));
  }

  lemma TakeView(v: View, c: Cluster, h: string, v': View, m: Member, ips: seq<string>)
    requires ReprV(v, c) && HostName(h) && h !in c.hosts
    requires forall k: Key :: k.Wf() ==> k in v
    requires ClusterInv(Cluster(c.taken + [h], c.hosts[h := m]))
    requires PoolRepr(Join(Split(At(v, Pool), ';')[1..], ';'), |c.taken| + 1)
    requires v' == JoinView(v, h, m.subnet, m.gateway, ips)
    requires Split(Join(ips, ';'), ';') == TokensOf(m.pool) && m.pool.leases == map[]
    ensures ReprV(v', Cluster(c.taken + [h], c.hosts[h := m]))
  {
    JoinViewFacts(v, h, m.subnet, m.gateway, ips);
    TakeHosts(v, c, h, v', m, Cluster(c.taken + [h], c.hosts[h := m]));
  }

  lemma TakeHosts(v: View, c: Cluster, h: string, v': View, m: Member, c': Cluster)
    requires HostsRepr(v, c) && HostName(h) && h !in c.hosts && c'.hosts == c.hosts[h := m]
    requires At(v', Host(h)) == m.subnet && At(v', HostGateway(h)) == m.gateway
    requires Split(At(v', HostPool(h)), ';') == TokensOf(m.pool) && m.pool.leases == map[]
    requires forall k: Key :: k.Device? || (!k.Pool? && k.host != h) ==> At(v', k) == At(v, k)
    ensures HostsRepr(v', c')
  {
    assert HostRepr(v, c, h);
    forall g | HostName(g) ensures HostRepr(v', c', g) {
      if g != h {
        assert HostRepr(v, c, g);
        HostFrame(v, c, v', c', g);
      }
    }
  }

  /** Later allocations of the host change nothing. */
  lemma JoinedRepr(kv: Kv, c: Cluster, h: string)
    requires Repr(kv, c) && HostName(h)
    requires At(ViewOf(kv), Pool) == Join(Subnets()[SubnetIndex(|c.taken|)..], ';')
    ensures h in Joined(c, h).hosts
    ensures HostAllocation(kv, h).1 == Ok(SubnetText(SubnetIndex(Joined(c, h).hosts[h].order)))
    ensures Repr(HostAllocation(kv, h).0, Joined(c, h))
  {
    var v := ViewOf(kv);
    assert HostRepr(v, c, h);
    assert Host(h).Wf() && Pool.Wf();
    if h in c.hosts {
      SubnetTextGood(SubnetIndex(c.hosts[h].order));
    } else {
      var i := SubnetIndex(|c.taken|);
      PoolAfterTake(|c.taken|);
      SubnetLists(i);
      HostAllocationView(kv, h, SubnetText(i), GatewayText(i), SubnetIps(i));
      TakeReprV(v, c, h, ViewOf(HostAllocation(kv, h).0));
    }
  }

  // ---- allocating and releasing a device ----

  lemma FreeTokensGood(m: Member)
    requires MemberInv(m)
    ensures GoodTokens(m.pool.free)
    ensures forall id :: id in m.pool.leases ==>
              m.pool.leases[id] in SubnetIps(SubnetIndex(m.order)) && GoodToken(m.pool.leases[id])
  {
    var ips := SubnetIps(SubnetIndex(m.order));
    SubnetIpsGood(SubnetIndex(m.order));
    forall k | 0 <= k < |m.pool.free| ensures GoodToken(m.pool.free[k]) {
      OnlyValid(m.pool, m.pool.free[k], ips);
    }
    forall id | id in m.pool.leases ensures m.pool.leases[id] in ips {
      OnlyValid(m.pool, m.pool.leases[id], ips);
    }
  }

  /** Dropping the head of the queue text, and appending to it. */
  lemma PopText(pool: HostState)
    requires GoodTokens(pool.free) && (pool.blank || pool.free != [])
    ensures var rest := TokensOf(pool)[1..];
            Split(Join(rest, ';'), ';') == (if rest == [] then [""] else rest)
            && rest == if pool.blank then pool.free else pool.free[1..]
  {
    var rest := TokensOf(pool)[1..];
    if rest != [] {
      forall k | 0 <= k < |rest| ensures ';' !in rest[k] {
        assert rest[k] == TokensOf(pool)[k + 1];
      }
      SplitJoinPlain(rest, ';');
    }
  }

  lemma PushText(pool: HostState, a: string)
    requires GoodTokens(pool.free) && GoodToken(a)
    ensures Split(Join(TokensOf(pool) + [a], ';'), ';') == TokensOf(pool) + [a]
  {
    var all := TokensOf(pool) + [a];
    forall k | 0 <= k < |all| ensures ';' !in all[k] {
    }
    SplitJoinPlain(all, ';');
  }

  /** Changing one host's pool and one of its devices leaves the rest of the cluster as it was. */
  lemma PoolStepRepr(v: View, c: Cluster, h: string, op: HostOp, v': View)
    requires ReprV(v, c) && h in c.hosts && '-' in op.id
    requires var pool' := HostStep(c.hosts[h].pool, op);
             && Split(At(v', HostPool(h)), ';') == TokensOf(pool')
             && At(v', Device(h, op.id)) == LeaseText(pool', op.id)
    requires forall k: Key :: k != HostPool(h) && k != Device(h, op.id) ==> At(v', k) == At(v, k)
    ensures ReprV(v', WithPool(c, h, op))
  {
    WithPoolKeepsInv(c, h, op);
    PoolStepHosts(v, c, h, op, v');
  }

  lemma PoolStepHosts(v: View, c: Cluster, h: string, op: HostOp, v': View)
    requires HostsRepr(v, c) && HostName(h) && h in c.hosts
    requires var pool' := HostStep(c.hosts[h].pool, op);
             && Split(At(v', HostPool(h)), ';') == TokensOf(pool')
             && At(v', Device(h, op.id)) == LeaseText(pool', op.id)
    requires forall k: Key :: k != HostPool(h) && k != Device(h, op.id) ==> At(v', k) == At(v, k)
    ensures HostsRepr(v', WithPool(c, h, op))
  {
    var c' := WithPool(c, h, op);
    forall g | HostName(g) ensures HostRepr(v', c', g) {
      assert HostRepr(v, c, g);
      if g != h {
        HostFrame(v, c, v', c', g);
      } else {
        OtherDevices(v, c.hosts[h].pool, h, op, v');
      }
    }
  }

  lemma OtherDevices(v: View, pool: HostState, h: string, op: HostOp, v': View)
    requires forall id :: '-' in id ==> At(v, Device(h, id)) == LeaseText(pool, id)
    requires At(v', Device(h, op.id)) == LeaseText(HostStep(pool, op), op.id)
    requires forall k: Key :: k != HostPool(h) && k != Device(h, op.id) ==> At(v', k) == At(v, k)
    ensures forall id :: '-' in id ==> At(v', Device(h, id)) == LeaseText(HostStep(pool, op), id)
  {
  }

  lemma QueueFacts(v: View, c: Cluster, h: string, id: string)
    requires ReprV(v, c) && h in c.hosts && '-' in id
    ensures var pool := c.hosts[h].pool;
            && HostName(h)
            && Split(At(v, HostPool(h)), ';') == TokensOf(pool) && At(v, Device(h, id)) == LeaseText(pool, id)
            && GoodTokens(pool.free) && (pool.blank || pool.free != [])
            && forall i :: i in pool.leases ==> GoodToken(pool.leases[i])
  {
    assert HostRepr(v, c, h);
    FreeTokensGood(c.hosts[h]);
  }

  lemma DeviceViewFrame(v: View, h: string, id: string)
    requires HostPool(h) in v && Device(h, id) in v
    ensures forall k: Key :: k != HostPool(h) && k != Device(h, id) ==> At(DeviceView(v, h, id), k) == At(v, k)
  {
  }

  lemma ReleaseViewFrame(v: View, h: string, id: string)
    requires HostPool(h) in v && Device(h, id) in v
    ensures forall k: Key :: k != HostPool(h) && k != Device(h, id) ==> At(ReleaseView(v, h, id), k) == At(v, k)
  {
  }

  lemma JoinViewFacts(v: View, h: string, subnet: string, gateway: string, ips: seq<string>)
    requires forall k: Key :: k.Wf() ==> k in v
    requires HostName(h)
    ensures var v' := JoinView(v, h, subnet, gateway, ips);
            && At(v', Pool) == Join(Split(At(v, Pool), ';')[1..], ';')
            && At(v', Host(h)) == subnet && At(v', HostGateway(h)) == gateway && At(v', HostPool(h)) == Join(ips, ';')
            && forall k: Key :: k.Device? || (!k.Pool? && k.host != h) ==> At(v', k) == At(v, k)
  {
    assert Pool.Wf() && Host(h).Wf() && HostGateway(h).Wf() && HostPool(h).Wf();
  }

  lemma AllocateReprV(v: View, c: Cluster, h: string, id: string)
    requires ReprV(v, c) && h in c.hosts && '-' in id
    requires HostPool(h) in v && Device(h, id) in v
    ensures ReprV(DeviceView(v, h, id), WithPool(c, h, Allocate(id)))
  {
    QueueFacts(v, c, h, id);
    AllocateText(v, c.hosts[h].pool, h, id);
    DeviceViewFrame(v, h, id);
    PoolStepRepr(v, c, h, Allocate(id), DeviceView(v, h, id));
  }

  lemma AllocateText(v: View, pool: HostState, h: string, id: string)
    requires HostPool(h) in v && Device(h, id) in v
    requires Split(At(v, HostPool(h)), ';') == TokensOf(pool) && At(v, Device(h, id)) == LeaseText(pool, id)
    requires GoodTokens(pool.free) && (pool.blank || pool.free != [])
    requires forall i :: i in pool.leases ==> GoodToken(pool.leases[i])
    ensures var v', pool' := DeviceView(v, h, id), HostStep(pool, Allocate(id));
            && Split(At(v', HostPool(h)), ';') == TokensOf(pool')
            && At(v', Device(h, id)) == LeaseText(pool', id)
  {
    if id !in pool.leases {
      PopText(pool);
    }
  }

  lemma ReleaseReprV(v: View, c: Cluster, h: string, id: string)
    requires ReprV(v, c) && h in c.hosts && '-' in id
    requires HostPool(h) in v && Device(h, id) in v
    ensures ReprV(ReleaseView(v, h, id), WithPool(c, h, Release(id)))
  {
    QueueFacts(v, c, h, id);
    ReleaseText(v, c.hosts[h].pool, h, id);
    ReleaseViewFrame(v, h, id);
    PoolStepRepr(v, c, h, Release(id), ReleaseView(v, h, id));
  }

  lemma ReleaseText(v: View, pool: HostState, h: string, id: string)
    requires HostPool(h) in v && Device(h, id) in v
    requires Split(At(v, HostPool(h)), ';') == TokensOf(pool) && At(v, Device(h, id)) == LeaseText(pool, id)
    requires GoodTokens(pool.free)
    requires forall i :: i in pool.leases ==> GoodToken(pool.leases[i])
    ensures var v', pool' := ReleaseView(v, h, id), HostStep(pool, Release(id));
            && Split(At(v', HostPool(h)), ';') == TokensOf(pool')
            && At(v', Device(h, id)) == LeaseText(pool', id)
  {
    if id in pool.leases {
      PushText(pool, pool.leases[id]);
      assert TokensOf(HostStep(pool, Release(id))) == TokensOf(pool) + [pool.leases[id]];
    }
  }

  /** Every whole operation on the store does to the text what the abstract operation does. */
  lemma StepRepr(kv: Kv, c: Cluster, op: Op)
    requires Repr(kv, c) && OpOk(op)
    ensures Repr(KvStep(kv, op), Step(c, op))
  {
    match op
    case Add(h, id) => AddRepr(kv, c, h, id);
    case Del(h, id) => DelRepr(kv, c, h, id);
  }

  lemma DelRepr(kv: Kv, c: Cluster, h: string, id: string)
    requires Repr(kv, c) && HostName(h) && '-' in id
    ensures Repr(PodRelease(kv, h, id), Step(c, Del(h, id)))
  {
    var v := ViewOf(kv);
    assert HostPool(h).Wf() && Device(h, id).Wf();
    PodReleaseView(kv, h, id);
    if h in c.hosts {
      ReleaseReprV(v, c, h, id);
    } else {
      assert HostRepr(v, c, h);
    }
  }

  lemma AddIsDevice(kv: Kv, h: string, id: string, i: nat)
    requires i < SUBNETS && HostAllocation(Seeded(kv), h).1 == Ok(SubnetText(i))
    ensures AddEffect(kv, h, id) == DeviceAllocation(HostAllocation(Seeded(kv), h).0, h, id, 28)
  {
    SubnetParses(i);
  }

  lemma AddRepr(kv: Kv, c: Cluster, h: string, id: string)
    requires Repr(kv, c) && HostName(h) && '-' in id
    ensures Repr(AddEffect(kv, h, id).0, Step(c, Add(h, id)))
  {
    SeededRepr(kv, c);
    JoinedRepr(Seeded(kv), c, h);
    var kv1, c1 := HostAllocation(Seeded(kv), h).0, Joined(c, h);
    AddIsDevice(kv, h, id, SubnetIndex(c1.hosts[h].order));
    assert HostPool(h).Wf() && Device(h, id).Wf();
    DeviceAllocationView(kv1, h, id, 28);
    AllocateReprV(ViewOf(kv1), c1, h, id);
  }
}
