/** Whole runs of the etcd-mode cluster from an empty store: conservation, uniqueness and reuse order,
    stated about the texts in the store. */
module ClusterRuns {
  import opened Allocator
  import opened Bags
  import opened CidrList
  import opened ClusterState
  import opened EtcdClient
  import opened EtcdKeys
  import opened HostSubnets
  import opened Ipv4
  import opened PoolQueue
  import opened Results
  import opened Runs
  import opened Text

  ghost predicate KvNext(kvs: seq<Kv>, ops: seq<Op>, k: nat)
    requires |kvs| == |ops| + 1 && k < |ops|
  {
    OpOk(ops[k]) && kvs[k + 1] == KvStep(kvs[k], ops[k])
  }

  /** kvs[k] is the store before operation k. */
  ghost predicate IsKvRun(kvs: seq<Kv>, ops: seq<Op>) {
    && |kvs| == |ops| + 1
    && kvs[0] == map[]
    && forall k :: 0 <= k < |ops| ==> KvNext(kvs, ops, k)
  }

  ghost predicate AbsNext(cs: seq<Cluster>, ops: seq<Op>, k: nat)
    requires |cs| == |ops| + 1 && k < |ops|
  {
    cs[k + 1] == Step(cs[k], ops[k])
  }

  const NOBODY: Cluster := Cluster([], map[])

  ghost predicate IsAbsRun(cs: seq<Cluster>, ops: seq<Op>) {
    && |cs| == |ops| + 1
    && cs[0] == NOBODY
    && forall k :: 0 <= k < |ops| ==> AbsNext(cs, ops, k)
  }

  lemma NobodyRepr()
    ensures Repr(map[], NOBODY)
  {
    NothingRead(ViewOf(map[]));
  }

  lemma NothingRead(v: View)
    requires forall k: Key :: At(v, k) == ""
    ensures ReprV(v, NOBODY)
  {
    forall h | HostName(h) ensures HostRepr(v, NOBODY, h) {
    }
  }

  /** The texts in the store represent the abstract cluster throughout every run. */
  lemma RunRepr(kvs: seq<Kv>, cs: seq<Cluster>, ops: seq<Op>, k: nat)
    requires IsKvRun(kvs, ops) && IsAbsRun(cs, ops) && k <= |ops|
    ensures Repr(kvs[k], cs[k])
  {
    NobodyRepr();
    forall i | 0 <= i < |ops| && Repr(kvs[i], cs[i]) ensures Repr(kvs[i + 1], cs[i + 1]) {
      assert KvNext(kvs, ops, i) && AbsNext(cs, ops, i);
      NextRepr(kvs[i], cs[i], ops[i], kvs[i + 1], cs[i + 1]);
    }
    HoldsThroughout(seq(|kvs|, i requires 0 <= i < |kvs| => Repr(kvs[i], cs[i])), k);
  }

  lemma NextRepr(kv: Kv, c: Cluster, op: Op, kv': Kv, c': Cluster)
    requires Repr(kv, c) && OpOk(op) && kv' == KvStep(kv, op) && c' == Step(c, op)
    ensures Repr(kv', c')
  {
    StepRepr(kv, c, op);
  }

  lemma {:induction false} AbsRunExists(ops: seq<Op>) returns (cs: seq<Cluster>)
    ensures IsAbsRun(cs, ops)
  {
    if ops == [] {
      cs := [NOBODY];
    } else {
      var n := |ops| - 1;
      var prefix := AbsRunExists(ops[..n]);
      cs := prefix + [Step(prefix[n], ops[n])];
      forall k | 0 <= k < |ops| ensures AbsNext(cs, ops, k) {
        if k < n {
          assert AbsNext(prefix, ops[..n], k);
        }
      }
    }
  }

  /** The abstract cluster a reachable store represents. */
  lemma AbsOf(kvs: seq<Kv>, ops: seq<Op>, k: nat) returns (c: Cluster)
    requires IsKvRun(kvs, ops) && k <= |ops|
    ensures Repr(kvs[k], c) && |c.taken| == |AddHosts(ops, k)|
  {
    var cs := AbsRunExists(ops);
    RunRepr(kvs, cs, ops, k);
    MembersAre(cs, ops, k);
    c := cs[k];
    TakersCount(c);
  }

  /** The hosts that have run an ADD. */
  ghost function AddHosts(ops: seq<Op>, k: nat): set<string>
    requires k <= |ops|
  {
    set j | 0 <= j < k && ops[j].Add? :: ops[j].host
  }

  lemma AddHostsStep(ops: seq<Op>, k: nat)
    requires 0 < k <= |ops|
    ensures AddHosts(ops, k) == AddHosts(ops, k - 1) + (if ops[k - 1].Add? then {ops[k - 1].host} else {})
  {
  }

  lemma StepMembers(c: Cluster, op: Op)
    ensures Step(c, op).hosts.Keys == c.hosts.Keys + (if op.Add? then {op.host} else {})
  {
  }

  lemma {:induction false} MembersAre(cs: seq<Cluster>, ops: seq<Op>, k: nat)
    requires IsAbsRun(cs, ops) && k <= |ops|
    ensures cs[k].hosts.Keys == AddHosts(ops, k)
  {
    if k > 0 {
      MembersAre(cs, ops, k - 1);
      AddHostsStep(ops, k);
      assert AbsNext(cs, ops, k - 1);
      StepMembers(cs[k - 1], ops[k - 1]);
    }
  }

  lemma {:induction false} TakenCount(taken: seq<string>, hosts: set<string>)
    requires forall t :: 0 <= t < |taken| ==> taken[t] in hosts
    requires forall h :: h in hosts ==> h in taken
    requires NoRepeats(taken)
    ensures |taken| == |hosts|
    decreases |taken|
  {
    if taken == [] {
      assert hosts == {};
    } else {
      var n := |taken| - 1;
      forall h | h in hosts - {taken[n]} ensures h in taken[..n] {
        var t :| 0 <= t < |taken| && taken[t] == h;
        assert taken[..n][t] == h;
      }
      TakenCount(taken[..n], hosts - {taken[n]});
    }
  }

  lemma TakersCount(c: Cluster)
    requires ClusterInv(c)
    ensures |c.taken| == |c.hosts.Keys|
  {
    forall i, j | 0 <= i < j < |c.taken| ensures c.taken[i] != c.taken[j] {
      assert c.hosts[c.taken[i]].order == i && c.hosts[c.taken[j]].order == j;
    }
    forall h | h in c.hosts.Keys ensures h in c.taken {
      assert c.taken[c.hosts[h].order] == h;
    }
    TakenCount(c.taken, c.hosts.Keys);
  }

  // ---- what the store says about a host ----

  /** The ids of the device keys of a host that the store has. */
  ghost function DeviceIds(kv: Kv, h: string): set<string> {
    var prefix := GetHostPath(h) + "/";
    set p | p in kv && prefix <= p && '-' in p[|prefix|..] :: p[|prefix|..]
  }

  lemma InDeviceIds(kv: Kv, h: string, id: string)
    ensures Read(kv, Device(h, id)) != "" && '-' in id ==> id in DeviceIds(kv, h)
    ensures id in DeviceIds(kv, h) ==> '-' in id
  {
    var prefix := GetHostPath(h) + "/";
    var p := prefix + id;
    assert p == Device(h, id).Path() && p[|prefix|..] == id;
  }

  /** The device leases of a host, read off the store's keys. */
  ghost function Leases(kv: Kv, h: string): map<string, string> {
    map id | id in DeviceIds(kv, h) && Read(kv, Device(h, id)) != "" :: Read(kv, Device(h, id))
  }

  lemma LeasesAre(kv: Kv, pool: HostState, h: string)
    requires forall id :: '-' in id ==> Read(kv, Device(h, id)) == LeaseText(pool, id)
    requires forall id :: id in pool.leases ==> '-' in id && pool.leases[id] != ""
    ensures Leases(kv, h) == pool.leases
  {
    forall id ensures id in Leases(kv, h) <==> id in pool.leases {
      InDeviceIds(kv, h, id);
    }
    forall id | id in pool.leases ensures Leases(kv, h)[id] == pool.leases[id] {
      assert '-' in id;
    }
  }

  function NonBlank(ts: seq<string>): seq<string> {
    if ts == [] then []
    else (if ts[0] == "" then [] else [ts[0]]) + NonBlank(ts[1..])
  }

  lemma {:induction false} NonBlankGood(ts: seq<string>)
    requires GoodTokens(ts)
    ensures NonBlank(ts) == ts
  {
    if ts != [] {
      NonBlankGood(ts[1..]);
      assert ts == [ts[0]] + ts[1..];
    }
  }

  lemma NonBlankTokens(pool: HostState)
    requires GoodTokens(pool.free)
    ensures NonBlank(TokensOf(pool)) == pool.free
  {
    NonBlankGood(pool.free);
    if pool.blank {
      assert TokensOf(pool)[1..] == pool.free;
    } else {
      assert TokensOf(pool) == pool.free;
    }
  }

  lemma ReadHost(kv: Kv, c: Cluster, h: string)
    requires Repr(kv, c) && HostName(h)
    ensures Read(kv, Host(h)) == At(ViewOf(kv), Host(h))
    ensures Read(kv, HostPool(h)) == At(ViewOf(kv), HostPool(h))
    ensures forall id :: '-' in id ==> Read(kv, Device(h, id)) == At(ViewOf(kv), Device(h, id))
    ensures HostRepr(ViewOf(kv), c, h)
  {
    assert Host(h).Wf() && HostPool(h).Wf();
    forall id | '-' in id ensures Read(kv, Device(h, id)) == At(ViewOf(kv), Device(h, id)) {
      assert Device(h, id).Wf();
    }
  }

  lemma OpIsOk(kvs: seq<Kv>, ops: seq<Op>, k: nat)
    requires IsKvRun(kvs, ops) && k < |ops|
    ensures OpOk(ops[k])
  {
    assert KvNext(kvs, ops, k);
  }

  /** What the store says about a host: it has a subnet exactly if it is a member. */
  lemma HostFacts(kv: Kv, c: Cluster, h: string)
    requires Repr(kv, c) && HostName(h)
    ensures Read(kv, Host(h)) != "" <==> h in c.hosts
    ensures h in c.hosts ==>
              var m := c.hosts[h];
              && MemberInv(m) && GoodTokens(m.pool.free)
              && Read(kv, Host(h)) == m.subnet
              && Split(Read(kv, HostPool(h)), ';') == TokensOf(m.pool)
              && Leases(kv, h) == m.pool.leases
              && (forall id :: '-' in id ==> Read(kv, Device(h, id)) == LeaseText(m.pool, id))
    ensures h !in c.hosts ==> forall id :: '-' in id ==> Read(kv, Device(h, id)) == ""
  {
    ReadHost(kv, c, h);
    if h in c.hosts {
      SubnetTextGood(SubnetIndex(c.hosts[h].order));
      FreeTokensGood(c.hosts[h]);
      LeasesAre(kv, c.hosts[h].pool, h);
    }
  }

  // ---- one host's pool, read off the store ----

  ghost function FreeQueue(kv: Kv, h: string): seq<string> {
    NonBlank(Split(Read(kv, HostPool(h)), ';'))
  }

  /** The queue and the leases of a host, as the store has them. */
  ghost function PoolOf(kv: Kv, h: string): HostState {
    HostState(Split(Read(kv, HostPool(h)), ';')[0] == "", FreeQueue(kv, h), Leases(kv, h))
  }

  lemma PoolOfMember(kv: Kv, c: Cluster, h: string)
    requires Repr(kv, c) && h in c.hosts && HostName(h)
    ensures PoolOf(kv, h) == c.hosts[h].pool
  {
    HostFacts(kv, c, h);
    var m := c.hosts[h];
    NonBlankTokens(m.pool);
    assert m.pool.blank <==> TokensOf(m.pool)[0] == "";
  }

  function HostOpOf(op: Op): HostOp {
    if op.Add? then Allocate(op.id) else Release(op.id)
  }

  lemma StepOfHost(c: Cluster, op: Op, h: string)
    requires h in c.hosts
    ensures h in Step(c, op).hosts
    ensures Step(c, op).hosts[h] ==
            c.hosts[h].(pool := if op.host == h then HostStep(c.hosts[h].pool, HostOpOf(op)) else c.hosts[h].pool)
  {
  }

  /** Once a host has a subnet, its pool in the store moves by the queue operation of each command it
      runs, stays as it is through every other host's commands, and the subnet stays. */
  lemma PoolStep(kvs: seq<Kv>, ops: seq<Op>, k: nat, h: string)
    requires IsKvRun(kvs, ops) && k < |ops| && HostName(h) && Read(kvs[k], Host(h)) != ""
    ensures Read(kvs[k + 1], Host(h)) == Read(kvs[k], Host(h))
    ensures PoolOf(kvs[k + 1], h) ==
            if ops[k].host == h then HostStep(PoolOf(kvs[k], h), HostOpOf(ops[k])) else PoolOf(kvs[k], h)
  {
    assert KvNext(kvs, ops, k);
    var c := AbsOf(kvs, ops, k);
    var c' := Step(c, ops[k]);
    StepRepr(kvs[k], c, ops[k]);
    HostFacts(kvs[k], c, h);
    StepOfHost(c, ops[k], h);
    HostFacts(kvs[k + 1], c', h);
    PoolOfMember(kvs[k], c, h);
    PoolOfMember(kvs[k + 1], c', h);
  }

  /** The pool in the store, against the subnet and the keys it was read from. */
  lemma PoolFacts(kvs: seq<Kv>, ops: seq<Op>, k: nat, h: string) returns (i: nat)
    requires IsKvRun(kvs, ops) && k <= |ops| && HostName(h) && Read(kvs[k], Host(h)) != ""
    ensures i < SUBNETS && Read(kvs[k], Host(h)) == SubnetText(i)
    ensures var pool := PoolOf(kvs[k], h);
            && HostInv(pool, SubnetIps(i)) && GoodTokens(pool.free)
            && Split(Read(kvs[k], HostPool(h)), ';') == TokensOf(pool)
            && (forall id :: id in pool.leases ==> '-' in id && pool.leases[id] != "")
            && (forall id :: '-' in id ==> Read(kvs[k], Device(h, id)) == LeaseText(pool, id))
  {
    var c := AbsOf(kvs, ops, k);
    HostFacts(kvs[k], c, h);
    PoolOfMember(kvs[k], c, h);
    FreeTokensGood(c.hosts[h]);
    i := SubnetIndex(c.hosts[h].order);
  }

  // ---- conservation, about the store ----

  /** Conservation: in every reachable store, the non-blank tokens of a host's pool together with its
      device leases are exactly the addresses of its subnet. */
  lemma Conservation(kvs: seq<Kv>, ops: seq<Op>, k: nat, h: string)
    requires IsKvRun(kvs, ops) && k <= |ops| && HostName(h) && Read(kvs[k], Host(h)) != ""
    ensures var kv := kvs[k];
            var ips := ValidIps(Read(kv, Host(h)));
            && ips.Ok? && NoRepeats(ips.value) && |ips.value| == 14
            && multiset(NonBlank(Split(Read(kv, HostPool(h)), ';'))) + ValuesOf(Leases(kv, h)) == multiset(ips.value)
  {
    var i := PoolFacts(kvs, ops, k, h);
    SubnetLists(i);
    SubnetCount(i);
  }

  /** So each address of the subnet is queued or leased, never both, and leased to one device only. */
  lemma FreeXorLeased(kvs: seq<Kv>, ops: seq<Op>, k: nat, h: string)
    requires IsKvRun(kvs, ops) && k <= |ops| && HostName(h) && Read(kvs[k], Host(h)) != ""
    ensures ValidIps(Read(kvs[k], Host(h))).Ok?
    ensures forall a :: a in ValidIps(Read(kvs[k], Host(h))).value ==> FreeOrLeased(kvs[k], h, a)
  {
    var i := PoolFacts(kvs, ops, k, h);
    SubnetLists(i);
    SubnetCount(i);
    SubnetIpsGood(i);
    forall a | a in SubnetIps(i) ensures FreeOrLeased(kvs[k], h, a) {
      PoolFreeXorLeased(PoolOf(kvs[k], h), a, SubnetIps(i));
    }
  }

  /** a is in the pool text or the value of exactly one device key, and never both. */
  ghost predicate FreeOrLeased(kv: Kv, h: string, a: string) {
    && (a in Split(Read(kv, HostPool(h)), ';') <==> !exists id :: '-' in id && Read(kv, Device(h, id)) == a)
    && (forall x, y :: '-' in x && '-' in y && Read(kv, Device(h, x)) == a && Read(kv, Device(h, y)) == a ==> x == y)
  }

  lemma PoolFreeXorLeased(pool: HostState, a: string, ips: seq<string>)
    requires HostInv(pool, ips) && NoRepeats(ips) && a in ips && a != "" && forall id :: id in pool.leases ==> '-' in id
    ensures a in TokensOf(pool) <==> !exists id :: '-' in id && LeaseText(pool, id) == a
    ensures forall x, y :: '-' in x && '-' in y && LeaseText(pool, x) == a && LeaseText(pool, y) == a ==> x == y
  {
    FreeOrLeasedOnce(pool, a, ips);
    LeaseTexts(pool, a);
  }

  lemma LeaseTexts(pool: HostState, a: string)
    requires a != "" && forall id :: id in pool.leases ==> '-' in id
    ensures (exists id :: id in pool.leases && pool.leases[id] == a) <==>
            (exists id :: '-' in id && LeaseText(pool, id) == a)
    ensures a in TokensOf(pool) <==> a in pool.free
  {
    if id :| id in pool.leases && pool.leases[id] == a {
      assert '-' in id && LeaseText(pool, id) == a;
    }
    if id :| '-' in id && LeaseText(pool, id) == a {
      assert id in pool.leases && pool.leases[id] == a;
    }
  }

  /** The pool text always splits into tokens of which only the head can be blank. */
  lemma OnlyHeadBlank(kvs: seq<Kv>, ops: seq<Op>, k: nat, h: string)
    requires IsKvRun(kvs, ops) && k <= |ops| && HostName(h) && Read(kvs[k], Host(h)) != ""
    ensures var tokens := Split(Read(kvs[k], HostPool(h)), ';');
            forall i :: 0 < i < |tokens| ==> tokens[i] != ""
  {
    var _ := PoolFacts(kvs, ops, k, h);
  }

  // ---- what ADD answers ----

  /** The device has no lease yet, and the host has a queue with a blank at its head. */
  predicate BlankAhead(kv: Kv, h: string, id: string) {
    Read(kv, Host(h)) != "" && Read(kv, Device(h, id)) == "" && Split(Read(kv, HostPool(h)), ';')[0] == ""
  }

  /** The listing of the subnet a host would take ends in every reachable store, so that ADD meets what
      its loops require. */
  lemma ListingAlwaysEnds(kvs: seq<Kv>, ops: seq<Op>, k: nat, h: string)
    requires IsKvRun(kvs, ops) && k <= |ops| && HostName(h)
    ensures ListingEnds(Seeded(kvs[k]), h)
  {
    var c := AbsOf(kvs, ops, k);
    var i := SubnetIndex(|c.taken|);
    SeededRepr(kvs[k], c);
    PoolAfterTake(|c.taken|);
    assert Pool.Wf();
    SubnetBelowTop(i);
  }

  lemma SubnetBelowTop(i: nat)
    requires i < SUBNETS
    ensures !ReachesTop(SubnetText(i))
  {
    SubnetParses(i);
    SubnetShape(i);
  }

  ghost predicate GoodAnswer(kv: Kv, h: string, id: string, r: Result<IPConfig, Fault>, kv': Kv) {
    && r.Ok? && InHostSubnet(kv', h, r.value)
    && r.value.address == AddressOf(Read(kv', Device(h, id)))
    && (r.value.address.None? <==> Read(kv', Device(h, id)) == "")
    && (r.value.address.None? <==> BlankAhead(kv, h, id))
  }

  /** The gateway is the one stored for the host, the first address of the subnet stored for it; the address
      lies above it in that subnet, whose prefix length goes with them. */
  ghost predicate InHostSubnet(kv: Kv, h: string, config: IPConfig) {
    Inside(ParseCIDR(Read(kv, Host(h))), AddressOf(Read(kv, HostGateway(h))), config)
  }

  predicate Inside(subnet: Option<Cidr>, gateway: Option<nat>, config: IPConfig) {
    && subnet.Some? && subnet.value.net.Wf() && config.bits == subnet.value.net.bits
    && config.gateway.Some? && config.gateway == gateway
    && config.gateway.value == subnet.value.net.base + 1 && subnet.value.net.Contains(config.gateway.value)
    && (config.address.Some? ==>
          config.gateway.value < config.address.value && subnet.value.net.Contains(config.address.value))
  }

  /** ADD never hangs and never crashes in a reachable store. It answers the address stored for the device,
      which lies in the host's subnet above the gateway it answers; only a blank at the head of the host's
      queue makes it answer no address, and then it stores no lease. */
  lemma AddAnswers(kvs: seq<Kv>, ops: seq<Op>, k: nat, h: string, id: string)
    requires IsKvRun(kvs, ops) && k < |ops| && ops[k] == Add(h, id)
    ensures ListingEnds(Seeded(kvs[k]), h)
    ensures GoodAnswer(kvs[k], h, id, AddEffect(kvs[k], h, id).1, kvs[k + 1])
  {
    assert KvNext(kvs, ops, k);
    var c := AbsOf(kvs, ops, k);
    StepRepr(kvs[k], c, ops[k]);
    AnswerIsStored(kvs[k], c, h, id, kvs[k + 1]);
    AnswerFromStore(kvs[k], h, id);
    AnswerInSubnet(kvs[k + 1], Step(c, ops[k]), h, id);
    ListingAlwaysEnds(kvs, ops, k, h);
  }

  lemma AnswerInSubnet(kv: Kv, c: Cluster, h: string, id: string)
    requires Repr(kv, c) && h in c.hosts && '-' in id
    ensures ParseCIDR(Read(kv, Host(h))).Some?
    ensures InHostSubnet(kv, h, StoredConfig(kv, h, id))
  {
    var i := SubnetIndex(c.hosts[h].order);
    StoredSubnet(kv, c, h, i);
    var address := StoredAddress(kv, c, h, id, i);
    InsideOwn(i, address);
  }

  lemma StoredAddress(kv: Kv, c: Cluster, h: string, id: string, i: nat) returns (address: Option<nat>)
    requires Repr(kv, c) && h in c.hosts && '-' in id && i == SubnetIndex(c.hosts[h].order)
    ensures address == AddressOf(Read(kv, Device(h, id)))
    ensures address.Some? ==> BaseOf(i) + 1 < address.value <= BaseOf(i) + 15
  {
    HostFacts(kv, c, h);
    LeasedAddress(c.hosts[h], id);
    address := AddressOf(LeaseText(c.hosts[h].pool, id));
  }

  lemma StoredSubnet(kv: Kv, c: Cluster, h: string, i: nat)
    requires Repr(kv, c) && h in c.hosts && i == SubnetIndex(c.hosts[h].order)
    ensures ParseCIDR(Read(kv, Host(h))) == Some(Cidr(BaseOf(i), SubnetOf(i)))
    ensures AddressOf(Read(kv, HostGateway(h))) == Some(BaseOf(i) + 1)
  {
    HostFacts(kv, c, h);
    MemberFacts(kv, c, h, "-");
    SubnetParses(i);
    GatewayParses(i);
  }

  lemma LeasedAddress(m: Member, id: string)
    requires MemberInv(m)
    ensures var a, base := AddressOf(LeaseText(m.pool, id)), BaseOf(SubnetIndex(m.order));
            a.Some? ==> base + 1 < a.value <= base + 15
  {
    BlankAddress();
    if id in m.pool.leases {
      FreeTokensGood(m);
      SubnetIpParses(SubnetIndex(m.order), m.pool.leases[id]);
    }
  }

  lemma InsideOwn(i: nat, address: Option<nat>)
    requires i < SUBNETS && (address.Some? ==> BaseOf(i) + 1 < address.value <= BaseOf(i) + 15)
    ensures Inside(Some(Cidr(BaseOf(i), SubnetOf(i))), Some(BaseOf(i) + 1), IPConfig(address, 28, Some(BaseOf(i) + 1)))
  {
    SubnetShape(i);
    InSubnet(i, BaseOf(i) + 1);
    if address.Some? {
      InSubnet(i, address.value);
    }
  }

  lemma InSubnet(i: nat, n: nat)
    requires i < SUBNETS && BaseOf(i) <= n <= BaseOf(i) + 15
    ensures SubnetOf(i).Contains(n)
  {
    SubnetShape(i);
    ContainsIsRange(SubnetOf(i), n);
  }

  lemma AnswerIsStored(kv: Kv, c: Cluster, h: string, id: string, kv': Kv)
    requires Repr(kv, c) && HostName(h) && '-' in id && Repr(kv', Step(c, Add(h, id)))
    ensures var r := AddEffect(kv, h, id).1;
            && r.Ok? && r.value.address == AddressOf(Read(kv', Device(h, id)))
            && (r.value.address.None? <==> Read(kv', Device(h, id)) == "")
            && (r.value.address.None? <==> BlankAhead(kv, h, id))
  {
    var c' := Step(c, Add(h, id));
    HostFacts(kv, c, h);
    HostFacts(kv', c', h);
    AddResult(kv, c, h, id);
    AddLeases(c, h, id);
    AddMember(c, h, id);
    BlankAddress();
    var m := c'.hosts[h];
    if id in m.pool.leases {
      FreeTokensGood(m);
      SubnetIpParses(SubnetIndex(m.order), m.pool.leases[id]);
    }
  }

  lemma BlankAddress()
    ensures AddressOf("").None?
  {
    SplitPlain("", '/');
  }

  /** What ADD answers for a member whose queue is in state pool. */
  function Answer(pool: HostState, id: string, i: nat): Result<IPConfig, Fault>
    requires i < SUBNETS
  {
    Ok(IPConfig(AddressOf(LeaseText(HostStep(pool, Allocate(id)), id)), 28, Some(BaseOf(i) + 1)))
  }

  lemma AddResult(kv: Kv, c: Cluster, h: string, id: string)
    requires Repr(kv, c) && HostName(h) && '-' in id
    ensures h in Joined(c, h).hosts
    ensures var m := Joined(c, h).hosts[h]; AddEffect(kv, h, id).1 == Answer(m.pool, id, SubnetIndex(m.order))
  {
    SeededRepr(kv, c);
    JoinedRepr(Seeded(kv), c, h);
    var m := Joined(c, h).hosts[h];
    AddIsDevice(kv, h, id, SubnetIndex(m.order));
    MemberAnswer(HostAllocation(Seeded(kv), h).0, Joined(c, h), h, id);
  }

  lemma MemberAnswer(kv: Kv, c: Cluster, h: string, id: string)
    requires Repr(kv, c) && h in c.hosts && '-' in id
    ensures DeviceAllocation(kv, h, id, 28).1 == Answer(c.hosts[h].pool, id, SubnetIndex(c.hosts[h].order))
  {
    MemberFacts(kv, c, h, id);
    DeviceResult(kv, c.hosts[h].pool, h, id, SubnetIndex(c.hosts[h].order));
  }

  lemma AddMember(c: Cluster, h: string, id: string)
    ensures var c' := Step(c, Add(h, id));
            h in Joined(c, h).hosts && h in c'.hosts
            && c'.hosts[h] == Joined(c, h).hosts[h].(pool := HostStep(Joined(c, h).hosts[h].pool, Allocate(id)))
  {
  }

  lemma AddLeases(c: Cluster, h: string, id: string)
    requires ClusterInv(c)
    ensures id !in Step(c, Add(h, id)).hosts[h].pool.leases <==>
            h in c.hosts && c.hosts[h].pool.blank && id !in c.hosts[h].pool.leases
  {
    if h in c.hosts {
      assert MemberInv(c.hosts[h]);
    } else {
      SubnetCount(SubnetIndex(|c.taken|));
    }
  }

  lemma MemberFacts(kv: Kv, c: Cluster, h: string, id: string)
    requires Repr(kv, c) && h in c.hosts && '-' in id
    ensures var pool, i := c.hosts[h].pool, SubnetIndex(c.hosts[h].order);
            && Read(kv, HostGateway(h)) == GatewayText(i)
            && Split(Read(kv, HostPool(h)), ';') == TokensOf(pool) && Read(kv, Device(h, id)) == LeaseText(pool, id)
            && GoodTokens(pool.free) && HostInv(pool, SubnetIps(i))
            && forall x :: x in pool.leases ==> GoodToken(pool.leases[x])
  {
    QueueFacts(ViewOf(kv), c, h, id);
    ReadHost(kv, c, h);
    assert HostGateway(h).Wf() && MemberInv(c.hosts[h]);
  }

  lemma DeviceResult(kv: Kv, pool: HostState, h: string, id: string, i: nat)
    requires i < SUBNETS && Read(kv, HostGateway(h)) == GatewayText(i)
    requires Split(Read(kv, HostPool(h)), ';') == TokensOf(pool) && Read(kv, Device(h, id)) == LeaseText(pool, id)
    requires GoodTokens(pool.free) && HostInv(pool, SubnetIps(i))
    requires forall x :: x in pool.leases ==> GoodToken(pool.leases[x])
    ensures DeviceAllocation(kv, h, id, 28).1 == Answer(pool, id, i)
  {
    GatewayParses(i);
    if id in pool.leases {
      OnlyValid(pool, pool.leases[id], SubnetIps(i));
      SubnetIpParses(i, pool.leases[id]);
    }
  }

  // ---- uniqueness across the cluster ----

  ghost predicate SubnetsDiffer(kv: Kv) {
    forall g, h :: HostName(g) && HostName(h) && g != h && Read(kv, Host(g)) != "" && Read(kv, Host(h)) != "" ==>
                     Read(kv, Host(g)) != Read(kv, Host(h))
  }

  lemma SmallIndex(n: nat)
    ensures n < 16 ==> SubnetIndex(n) == n
    ensures SubnetIndex(16) == 0
  {
  }

  /** Cluster-wide uniqueness: the hosts' subnets all differ exactly as long as at most 16 hosts have
      run an ADD; the seventeenth gets the first one's subnet again. */
  lemma SubnetsDifferIff(kvs: seq<Kv>, ops: seq<Op>, k: nat)
    requires IsKvRun(kvs, ops) && k <= |ops|
    ensures SubnetsDiffer(kvs[k]) <==> |AddHosts(ops, k)| <= 16
  {
    var kv := kvs[k];
    var c := AbsOf(kvs, ops, k);
    if |c.taken| <= 16 {
      forall g, h | HostName(g) && HostName(h) && g != h && Read(kv, Host(g)) != "" && Read(kv, Host(h)) != ""
        ensures Read(kv, Host(g)) != Read(kv, Host(h))
      {
        HostFacts(kv, c, g);
        HostFacts(kv, c, h);
        MembersApart(c, g, h);
        SubnetsDisjoint(SubnetIndex(c.hosts[g].order), SubnetIndex(c.hosts[h].order));
      }
    } else {
      FirstAgain(kv, c);
    }
  }

  lemma FirstAgain(kv: Kv, c: Cluster)
    requires Repr(kv, c) && |c.taken| > 16
    ensures !SubnetsDiffer(kv)
  {
    var g, h := c.taken[0], c.taken[16];
    assert c.hosts[g].order == 0 && c.hosts[h].order == 16;
    SmallIndex(0);
    SmallIndex(16);
    HostFacts(kv, c, g);
    HostFacts(kv, c, h);
  }

  lemma MembersApart(c: Cluster, g: string, h: string)
    requires ClusterInv(c) && |c.taken| <= 16 && g in c.hosts && h in c.hosts && g != h
    ensures SubnetIndex(c.hosts[g].order) != SubnetIndex(c.hosts[h].order)
  {
    SmallIndex(c.hosts[g].order);
    SmallIndex(c.hosts[h].order);
  }

  /** While at most 16 hosts have run an ADD, no two devices anywhere hold the same address. */
  lemma NoSharedPodAddress(kvs: seq<Kv>, ops: seq<Op>, k: nat, g: string, x: string, h: string, y: string)
    requires IsKvRun(kvs, ops) && k <= |ops| && |AddHosts(ops, k)| <= 16
    requires HostName(g) && HostName(h) && '-' in x && '-' in y
    requires Read(kvs[k], Device(g, x)) != "" && Read(kvs[k], Device(h, y)) != ""
    requires AddressOf(Read(kvs[k], Device(g, x))) == AddressOf(Read(kvs[k], Device(h, y)))
    ensures g == h && x == y
  {
    var c := AbsOf(kvs, ops, k);
    HostFacts(kvs[k], c, g);
    HostFacts(kvs[k], c, h);
    LeasesApart(c, g, x, h, y);
  }

  lemma LeasesApart(c: Cluster, g: string, x: string, h: string, y: string)
    requires ClusterInv(c) && |c.taken| <= 16 && g in c.hosts && h in c.hosts
    requires x in c.hosts[g].pool.leases && y in c.hosts[h].pool.leases
    requires AddressOf(c.hosts[g].pool.leases[x]) == AddressOf(c.hosts[h].pool.leases[y])
    ensures g == h && x == y
  {
    var m, n := c.hosts[g], c.hosts[h];
    FreeTokensGood(m);
    FreeTokensGood(n);
    SameAddressSameToken(SubnetIndex(m.order), m.pool.leases[x], SubnetIndex(n.order), n.pool.leases[y]);
    if g != h {
      MembersApart(c, g, h);
      SubnetsDisjoint(SubnetIndex(m.order), SubnetIndex(n.order));
    } else {
      SubnetCount(SubnetIndex(m.order));
      FreeOrLeasedOnce(m.pool, m.pool.leases[x], SubnetIps(SubnetIndex(m.order)));
    }
  }

  lemma SameAddressSameToken(i: nat, s: string, j: nat, t: string)
    requires i < SUBNETS && j < SUBNETS && s in SubnetIps(i) && t in SubnetIps(j) && AddressOf(s) == AddressOf(t)
    ensures s == t
  {
    var m := TokenNumber(i, s);
    var n := TokenNumber(j, t);
    ParsedAddress(m, 28);
    ParsedAddress(n, 28);
  }

  /** The pool is rewritten only when every subnet of the last seeding has been taken. */
  lemma ReseededOnlyWhenDrained(kvs: seq<Kv>, ops: seq<Op>, k: nat)
    requires IsKvRun(kvs, ops) && k <= |ops|
    ensures |AddHosts(ops, k)| % 16 != 0 ==> Seeded(kvs[k]) == kvs[k]
  {
    var c := AbsOf(kvs, ops, k);
    SeededRepr(kvs[k], c);
  }

  /** When 17 hosts run one ADD each, the first and the last are given the same address. */
  lemma SeventeenHostsShareAddress(kvs: seq<Kv>, ops: seq<Op>, hosts: seq<string>, id: string)
    requires IsKvRun(kvs, ops) && |ops| == |hosts| == 17 && NoRepeats(hosts)
    requires forall k :: 0 <= k < 17 ==> ops[k] == Add(hosts[k], id)
    ensures Read(kvs[17], Device(hosts[0], id)) == Read(kvs[17], Device(hosts[16], id)) != ""
  {
    var cs := AbsRunExists(ops);
    RunRepr(kvs, cs, ops, 17);
    FirstPods(cs, ops, hosts, id, 17);
    assert HasFirstPod(cs[17], hosts[0], 0, id) && HasFirstPod(cs[17], hosts[16], 16, id);
    assert KvNext(kvs, ops, 0) && KvNext(kvs, ops, 16);
    HostFacts(kvs[17], cs[17], hosts[0]);
    HostFacts(kvs[17], cs[17], hosts[16]);
    SmallIndex(0);
    SmallIndex(16);
    SubnetIpsGood(0);
  }

  ghost predicate HasFirstPod(c: Cluster, h: string, t: nat, id: string) {
    h in c.hosts && |SubnetIps(SubnetIndex(t))| > 0 && c.hosts[h].pool.leases == map[id := SubnetIps(SubnetIndex(t))[0]]
  }

  lemma {:induction false} FirstPods(cs: seq<Cluster>, ops: seq<Op>, hosts: seq<string>, id: string, k: nat)
    requires IsAbsRun(cs, ops) && k <= |ops| == |hosts| && NoRepeats(hosts)
    requires forall j :: 0 <= j < |ops| ==> ops[j] == Add(hosts[j], id)
    ensures |cs[k].taken| == k
    ensures forall h :: h in cs[k].hosts ==> h in hosts[..k]
    ensures forall t :: 0 <= t < k ==> HasFirstPod(cs[k], hosts[t], t, id)
  {
    if k > 0 {
      FirstPods(cs, ops, hosts, id, k - 1);
      assert AbsNext(cs, ops, k - 1);
      assert hosts[k - 1] !in hosts[..k - 1];
      FirstPodStep(cs[k - 1], hosts[k - 1], id);
      assert hosts[..k] == hosts[..k - 1] + [hosts[k - 1]];
      forall t | 0 <= t < k - 1 ensures HasFirstPod(cs[k], hosts[t], t, id) {
        assert HasFirstPod(cs[k - 1], hosts[t], t, id);
      }
    }
  }

  lemma FirstPodStep(c: Cluster, h: string, id: string)
    requires h !in c.hosts
    ensures var c' := Step(c, Add(h, id));
            && HasFirstPod(c', h, |c.taken|, id) && c'.taken == c.taken + [h]
            && c'.hosts.Keys == c.hosts.Keys + {h}
            && forall g :: g in c.hosts ==> c'.hosts[g] == c.hosts[g]
  {
    SubnetCount(SubnetIndex(|c.taken|));
  }
}
