/** The host named pool, whose own key is the cluster pool's: what its ADD does in every store that
    hosts of any other name can bring about. */
module HostNamedPool {
  import opened Allocator
  import opened CidrList
  import opened ClusterRuns
  import opened ClusterState
  import opened EtcdClient
  import opened EtcdKeys
  import opened HostSubnets
  import opened Ipv4
  import opened Results
  import opened Text

  // ---- the untaken subnets as a host's subnet ----

  /** Two subnets in one text: the part after the first slash has a slash of its own. */
  lemma TwoSubnetsDoNotParse(i: nat, rest: string)
    requires i < SUBNETS && '/' in rest
    ensures ParseCIDR(SubnetText(i) + ";" + rest).None?
  {
    var address, after := "10.1." + Itoa(i + 1) + ".0", "28;" + rest;
    DigitsFree(Itoa(i + 1), '/');
    assert SubnetText(i) + ";" + rest == address + ['/'] + after;
    SplitFirst(address, '/', after);
    SplitCount(after, '/');
  }

  lemma JoinedSubnets(i: nat)
    requires i < SUBNETS
    ensures var text := Join(Subnets()[i..], ';');
            && text != ""
            && (i < 15 ==> ParseCIDR(text).None?)
            && (i == 15 ==> text == SubnetText(15))
  {
    SubnetsGood();
    JoinedTail(Subnets(), i);
    var left := Subnets()[i..];
    if i < 15 {
      assert left[1..] == Subnets()[i + 1..];
      var rest := Join(left[1..], ';');
      SlashAhead(left[1..]);
      assert Join(left, ';') == SubnetText(i) + ";" + rest;
      TwoSubnetsDoNotParse(i, rest);
    } else {
      assert left == [SubnetText(15)];
    }
  }

  lemma SlashAhead(subnets: seq<string>)
    requires subnets != [] && '/' in subnets[0]
    ensures '/' in Join(subnets, ';')
  {
    if |subnets| > 1 {
      assert Join(subnets, ';') == subnets[0] + [';'] + Join(subnets[1..], ';');
    }
  }

  lemma ReadsPoolAsSubnet(kv: Kv)
    requires Read(kv, Pool) != ""
    ensures HostAllocation(kv, "pool") == (kv, Ok(Read(kv, Pool)))
  {
    assert Host("pool").Path() == Pool.Path();
  }

  /** With two or more untaken subnets every ADD crashes and leaves the pool as seeded; a single one is
      taken for the host's subnet, and stays in the pool. */
  lemma AddOfPool(kv: Kv, id: string, i: nat)
    requires i < SUBNETS && Read(Seeded(kv), Pool) == Join(Subnets()[i..], ';')
    ensures i < 15 ==> AddEffect(kv, "pool", id) == (Seeded(kv), Err(BadSubnet))
    ensures i == 15 ==> AddEffect(kv, "pool", id) == DeviceAllocation(Seeded(kv), "pool", id, 28)
  {
    JoinedSubnets(i);
    ReadsPoolAsSubnet(Seeded(kv));
    SubnetParses(15);
  }

  // ---- no other host writes a key of this one ----

  const BELOW: string := GetHostPath("pool") + "/"

  /** The store has no key below the cluster pool's. */
  ghost predicate NothingBelow(kv: Kv) {
    forall p :: p in kv ==> !(BELOW <= p)
  }

  lemma BelowSplits(path: string)
    requires BELOW <= path
    ensures |PREFIX| <= |path|
    ensures var pieces := Split(path[|PREFIX|..], '/'); |pieces| >= 2 && pieces[0] == "pool"
  {
    var rest := path[|BELOW|..];
    assert path[|PREFIX|..] == "pool" + ['/'] + rest;
    SplitFirst("pool", '/', rest);
  }

  lemma PathNotBelow(k: Key)
    requires k.Wf()
    ensures !(BELOW <= k.Path())
  {
    PathSplits(k);
    if BELOW <= k.Path() {
      BelowSplits(k.Path());
    }
  }

  lemma WriteNotBelow(kv: Kv, k: Key, value: string)
    requires NothingBelow(kv) && k.Wf()
    ensures NothingBelow(Write(kv, k, value))
  {
    PathNotBelow(k);
  }

  lemma HostAllocationNotBelow(kv: Kv, h: string)
    requires NothingBelow(kv) && HostName(h)
    ensures NothingBelow(HostAllocation(kv, h).0)
  {
    var (kv1, ip) := FirstFromPool(kv, Pool);
    var kv2 := Write(kv1, Host(h), ip);
    assert Pool.Wf() && Host(h).Wf() && HostGateway(h).Wf() && HostPool(h).Wf();
    WriteNotBelow(kv, Pool, Join(Split(Read(kv, Pool), ';')[1..], ';'));
    WriteNotBelow(kv1, Host(h), ip);
    var gw := Gateway(ip);
    if gw.Some? {
      var kv3 := Write(kv2, HostGateway(h), gw.value);
      WriteNotBelow(kv2, HostGateway(h), gw.value);
      if ValidIps(ip).Ok? {
        WriteNotBelow(kv3, HostPool(h), Join(ValidIps(ip).value, ';'));
      }
    }
  }

  lemma DeviceAllocationNotBelow(kv: Kv, h: string, id: string, bits: nat)
    requires NothingBelow(kv) && HostName(h) && '-' in id
    ensures NothingBelow(DeviceAllocation(kv, h, id, bits).0)
  {
    assert HostPool(h).Wf() && Device(h, id).Wf();
    var (kv1, ip) := FirstFromPool(kv, HostPool(h));
    WriteNotBelow(kv, HostPool(h), Join(Split(Read(kv, HostPool(h)), ';')[1..], ';'));
    WriteNotBelow(kv1, Device(h, id), ip);
  }

  lemma PodAllocationNotBelow(kv: Kv, h: string, id: string)
    requires NothingBelow(kv) && HostName(h) && '-' in id
    ensures NothingBelow(PodAllocation(kv, h, id).0)
  {
    HostAllocationNotBelow(kv, h);
    var (kv1, subnet) := HostAllocation(kv, h);
    if subnet.Ok? && ParseCIDR(subnet.value).Some? {
      DeviceAllocationNotBelow(kv1, h, id, ParseCIDR(subnet.value).value.net.bits);
    }
  }

  lemma SeededNotBelow(kv: Kv)
    requires NothingBelow(kv)
    ensures NothingBelow(Seeded(kv))
  {
    assert Pool.Wf();
    WriteNotBelow(kv, Pool, Join(Subnets(), ';'));
  }

  lemma PodReleaseNotBelow(kv: Kv, h: string, id: string)
    requires NothingBelow(kv) && HostName(h)
    ensures NothingBelow(PodRelease(kv, h, id))
  {
    assert HostPool(h).Wf();
    WriteNotBelow(kv, HostPool(h), Join(Split(Read(kv, HostPool(h)), ';') + [Read(kv, Device(h, id))], ';'));
  }

  lemma StepNotBelow(kv: Kv, op: Op)
    requires NothingBelow(kv) && OpOk(op)
    ensures NothingBelow(KvStep(kv, op))
  {
    match op
    case Add(h, id) =>
      SeededNotBelow(kv);
      PodAllocationNotBelow(Seeded(kv), h, id);
    case Del(h, id) => PodReleaseNotBelow(kv, h, id);
  }

  lemma {:induction false} RunNotBelow(kvs: seq<Kv>, ops: seq<Op>, k: nat)
    requires IsKvRun(kvs, ops) && k <= |ops|
    ensures NothingBelow(kvs[k])
  {
    if k > 0 {
      RunNotBelow(kvs, ops, k - 1);
      assert KvNext(kvs, ops, k - 1);
      StepNotBelow(kvs[k - 1], ops[k - 1]);
    }
  }

  // ---- what its ADD does in every reachable store ----

  lemma NoneBelow(kv: Kv, id: string)
    requires NothingBelow(kv)
    ensures Read(kv, HostGateway("pool")) == "" && Read(kv, HostPool("pool")) == ""
    ensures Read(kv, Device("pool", id)) == ""
  {
    BelowPath("gateway");
    BelowPath("pool");
    BelowPath(id);
  }

  lemma BelowPath(rest: string)
    ensures BELOW <= GetHostPath("pool") + "/" + rest
  {
  }

  lemma NoConfig(kv: Kv, id: string)
    requires NothingBelow(kv)
    ensures DeviceAllocation(kv, "pool", id, 28).1 == Ok(IPConfig(None, 28, None))
    ensures Read(DeviceAllocation(kv, "pool", id, 28).0, Pool) == Read(kv, Pool)
  {
    NoneBelow(kv, id);
    BlankAddress();
    assert |HostPool("pool").Path()| > |Pool.Path()| && |Device("pool", id).Path()| > |Pool.Path()|;
  }

  /** A host named pool reads the untaken subnets as its own subnet. Every ADD it runs against a reachable
      store crashes and leaves the pool as seeded, except exactly when a single subnet is left: then it
      succeeds, with no address and no gateway. In neither case does it take anything from the pool. */
  lemma AddCrashesIff(kvs: seq<Kv>, ops: seq<Op>, k: nat, id: string)
    requires IsKvRun(kvs, ops) && k <= |ops|
    ensures AddEffect(kvs[k], "pool", id).1.Err? <==> |AddHosts(ops, k)| % 16 != 15
    ensures |AddHosts(ops, k)| % 16 != 15 ==> AddEffect(kvs[k], "pool", id) == (Seeded(kvs[k]), Err(BadSubnet))
    ensures |AddHosts(ops, k)| % 16 == 15 ==> AddEffect(kvs[k], "pool", id).1 == Ok(IPConfig(None, 28, None))
    ensures Read(AddEffect(kvs[k], "pool", id).0, Pool) == Read(Seeded(kvs[k]), Pool)
  {
    var c := AbsOf(kvs, ops, k);
    SeededRepr(kvs[k], c);
    assert Pool.Wf();
    RunNotBelow(kvs, ops, k);
    SeededNotBelow(kvs[k]);
    NoConfig(Seeded(kvs[k]), id);
    AddOfPool(kvs[k], id, SubnetIndex(|c.taken|));
  }
}
