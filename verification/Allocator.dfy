/** The etcd-mode allocator (plugins/ipam/etcdmode/allocator/allocator.go) and the plugin commands that
    call it (plugins/ipam/etcdmode/main.go). Every operation is a sequence of reads and writes of the
    shared store; its effect is stated by a function on the store. host is the machine's host name. */
module Allocator {
  import opened CidrList
  import opened EtcdClient
  import opened EtcdKeys
  import opened Ipv4
  import opened Results
  import opened Text

  /** An index past the end of a slice, or an error return. A command that gets an error back from the
      allocator dereferences the missing result, so either one crashes ADD. */
  datatype Fault = IndexPanic | BadSubnet | BadLease

  /** current.IPConfig: the address, None where it is nil, with the host's prefix length. */
  datatype IPConfig = IPConfig(address: Option<nat>, bits: nat, gateway: Option<nat>)

  // ---- effects on the store ----

  function FirstFromPool(kv: Kv, poolKey: Key): (Kv, string) {
    var pool := Split(Read(kv, poolKey), ';');
    (Write(kv, poolKey, Join(pool[1..], ';')), pool[0])
  }

  function HostAllocation(kv: Kv, host: string): (Kv, Result<string, Fault>) {
    var known := Read(kv, Host(host));
    if known != "" then (kv, Ok(known))
    else
      var (kv1, ip) := FirstFromPool(kv, Pool);
      var kv2 := Write(kv1, Host(host), ip);
      match Gateway(ip)
      case None => (kv2, Err(IndexPanic))
      case Some(gw) =>
        var kv3 := Write(kv2, HostGateway(host), gw);
        match ValidIps(ip)
        case Err(_) => (kv3, Err(BadSubnet))
        case Ok(ips) => (Write(kv3, HostPool(host), Join(ips, ';')), Ok(ip))
  }

  function AddressOf(text: string): Option<nat> {
    var c := ParseCIDR(text);
    if c.Some? then Some(c.value.ip) else None
  }

  /** The part of a pod allocation that runs once the host has a subnet. */
  function DeviceAllocation(kv: Kv, host: string, id: string, bits: nat): (Kv, Result<IPConfig, Fault>) {
    var gw := AddressOf(Read(kv, HostGateway(host)));
    var known := Read(kv, Device(host, id));
    if known != "" then
      (kv, if ParseCIDR(known).None? then Err(BadLease) else Ok(IPConfig(AddressOf(known), bits, gw)))
    else
      var (kv1, ip) := FirstFromPool(kv, HostPool(host));
      (Write(kv1, Device(host, id), ip), Ok(IPConfig(AddressOf(ip), bits, gw)))
  }

  function PodAllocation(kv: Kv, host: string, id: string): (Kv, Result<IPConfig, Fault>) {
    var (kv1, subnet) := HostAllocation(kv, host);
    if subnet.Err? then (kv1, Err(subnet.error))
    else
      match ParseCIDR(subnet.value)
      case None => (kv1, Err(BadSubnet))
      case Some(c) => DeviceAllocation(kv1, host, id, c.net.bits)
  }

  function PodRelease(kv: Kv, host: string, id: string): Kv {
    var known := Read(kv, Device(host, id));
    if known == "" then kv
    else
      var pool := Split(Read(kv, HostPool(host)), ';');
      Remove(Write(kv, HostPool(host), Join(pool + [known], ';')), Device(host, id))
  }

  /** The whole ADD command; Err is a crash, which leaves what was written so far. */
  function AddEffect(kv: Kv, host: string, id: string): (Kv, Result<IPConfig, Fault>) {
    PodAllocation(Seeded(kv), host, id)
  }

  // ---- the same effects on the values of keys ----

  ghost function PopView(v: View, poolKey: Key): View {
    v[poolKey := Join(Split(At(v, poolKey), ';')[1..], ';')]
  }

  ghost function DeviceView(v: View, host: string, id: string): View {
    if At(v, Device(host, id)) != "" then v
    else PopView(v, HostPool(host))[Device(host, id) := Split(At(v, HostPool(host)), ';')[0]]
  }

  ghost function ReleaseView(v: View, host: string, id: string): View {
    var known := At(v, Device(host, id));
    if known == "" then v
    else v[HostPool(host) := Join(Split(At(v, HostPool(host)), ';') + [known], ';')][Device(host, id) := ""]
  }

  ghost function JoinView(v: View, host: string, subnet: string, gateway: string, ips: seq<string>): View {
    PopView(v, Pool)[Host(host) := subnet][HostGateway(host) := gateway][HostPool(host) := Join(ips, ';')]
  }

  lemma DeviceAllocationView(kv: Kv, host: string, id: string, bits: nat)
    requires HostPool(host).Wf() && Device(host, id).Wf()
    ensures ViewOf(DeviceAllocation(kv, host, id, bits).0) == DeviceView(ViewOf(kv), host, id)
  {
    var pool := Split(Read(kv, HostPool(host)), ';');
    var rest := Join(pool[1..], ';');
    WriteView(kv, HostPool(host), rest);
    WriteView(Write(kv, HostPool(host), rest), Device(host, id), pool[0]);
  }

  lemma PodReleaseView(kv: Kv, host: string, id: string)
    requires HostPool(host).Wf() && Device(host, id).Wf()
    ensures ViewOf(PodRelease(kv, host, id)) == ReleaseView(ViewOf(kv), host, id)
  {
    var all := Join(Split(Read(kv, HostPool(host)), ';') + [Read(kv, Device(host, id))], ';');
    WriteView(kv, HostPool(host), all);
    RemoveView(Write(kv, HostPool(host), all), Device(host, id));
  }

  lemma HostAllocationView(kv: Kv, host: string, subnet: string, gateway: string, ips: seq<string>)
    requires Host(host).Wf() && HostGateway(host).Wf() && HostPool(host).Wf()
    requires Read(kv, Host(host)) == "" && Split(Read(kv, Pool), ';')[0] == subnet
    requires Gateway(subnet) == Some(gateway) && ValidIps(subnet) == Ok(ips)
    ensures HostAllocation(kv, host).1 == Ok(subnet)
    ensures ViewOf(HostAllocation(kv, host).0) == JoinView(ViewOf(kv), host, subnet, gateway, ips)
  {
    var (kv1, ip) := FirstFromPool(kv, Pool);
    var kv2 := Write(kv1, Host(host), ip);
    var kv3 := Write(kv2, HostGateway(host), gateway);
    assert Pool.Wf();
    WriteView(kv, Pool, Join(Split(Read(kv, Pool), ';')[1..], ';'));
    WriteView(kv1, Host(host), ip);
    WriteView(kv2, HostGateway(host), gateway);
    WriteView(kv3, HostPool(host), Join(ips, ';'));
  }

  // ---- what an operation leaves alone ----

  /** Writing one key keeps what every other key reads. */
  lemma WriteOther(kv: Kv, k: Key, value: string, other: Key)
    requires k.Wf() && other.Wf() && k != other
    ensures Read(Write(kv, k, value), other) == Read(kv, other)
  {
    SamePath(k, other);
  }

  /** The keys an operation of a host for a device can write. */
  predicate Touched(k: Key, host: string, id: string) {
    match k
    case Pool => true
    case Device(h, i) => h == host && i == id
    case _ => k.host == host
  }

  lemma HostAllocationFrame(kv: Kv, host: string, k: Key)
    requires HostName(host) && k.Wf() && !k.Pool? && (k.Device? || k.host != host)
    ensures Read(HostAllocation(kv, host).0, k) == Read(kv, k)
  {
    var (kv1, ip) := FirstFromPool(kv, Pool);
    var kv2 := Write(kv1, Host(host), ip);
    assert Pool.Wf() && Host(host).Wf() && HostGateway(host).Wf() && HostPool(host).Wf();
    WriteOther(kv, Pool, Join(Split(Read(kv, Pool), ';')[1..], ';'), k);
    WriteOther(kv1, Host(host), ip, k);
    var gw := Gateway(ip);
    if gw.Some? {
      var kv3 := Write(kv2, HostGateway(host), gw.value);
      WriteOther(kv2, HostGateway(host), gw.value, k);
      if ValidIps(ip).Ok? {
        WriteOther(kv3, HostPool(host), Join(ValidIps(ip).value, ';'), k);
      }
    }
  }

  lemma DeviceAllocationFrame(kv: Kv, host: string, id: string, bits: nat, k: Key)
    requires HostName(host) && '-' in id && k.Wf() && k != HostPool(host) && k != Device(host, id)
    ensures Read(DeviceAllocation(kv, host, id, bits).0, k) == Read(kv, k)
  {
    assert HostPool(host).Wf() && Device(host, id).Wf();
    var (kv1, ip) := FirstFromPool(kv, HostPool(host));
    WriteOther(kv, HostPool(host), Join(Split(Read(kv, HostPool(host)), ';')[1..], ';'), k);
    WriteOther(kv1, Device(host, id), ip, k);
  }

  lemma SeededFrame(kv: Kv, k: Key)
    requires k.Wf() && !k.Pool?
    ensures Read(Seeded(kv), k) == Read(kv, k)
  {
    assert Pool.Wf();
    WriteOther(kv, Pool, Join(Subnets(), ';'), k);
  }

  lemma PodAllocationFrame(kv: Kv, host: string, id: string, k: Key)
    requires HostName(host) && '-' in id && k.Wf() && !Touched(k, host, id)
    ensures Read(PodAllocation(kv, host, id).0, k) == Read(kv, k)
  {
    HostAllocationFrame(kv, host, k);
    var (kv1, subnet) := HostAllocation(kv, host);
    if subnet.Ok? && ParseCIDR(subnet.value).Some? {
      DeviceAllocationFrame(kv1, host, id, ParseCIDR(subnet.value).value.net.bits, k);
    }
  }

  lemma AddFrame(kv: Kv, host: string, id: string, k: Key)
    requires HostName(host) && '-' in id && k.Wf() && !Touched(k, host, id)
    ensures Read(AddEffect(kv, host, id).0, k) == Read(kv, k)
  {
    PodAllocationFrame(Seeded(kv), host, id, k);
    SeededFrame(kv, k);
  }

  lemma ReleaseFrame(kv: Kv, host: string, id: string, k: Key)
    requires HostName(host) && '-' in id && k.Wf() && !Touched(k, host, id)
    ensures Read(PodRelease(kv, host, id), k) == Read(kv, k)
  {
    assert HostPool(host).Wf() && Device(host, id).Wf();
    SamePath(k, Device(host, id));
    WriteOther(kv, HostPool(host), Join(Split(Read(kv, HostPool(host)), ';') + [Read(kv, Device(host, id))], ';'), k);
  }

  /** A DEL leaves the device key blank. */
  lemma ReleaseBlanks(kv: Kv, host: string, id: string)
    ensures Read(PodRelease(kv, host, id), Device(host, id)) == ""
  {
  }

  /** An ADD never changes a device key that has text. */
  lemma DeviceKept(kv: Kv, host: string, id: string)
    requires HostName(host) && '-' in id && Read(kv, Device(host, id)) != ""
    ensures Read(AddEffect(kv, host, id).0, Device(host, id)) == Read(kv, Device(host, id))
  {
    assert Device(host, id).Wf();
    SeededFrame(kv, Device(host, id));
    HostAllocationFrame(Seeded(kv), host, Device(host, id));
    PodKeepsDevice(Seeded(kv), host, id);
  }

  lemma PodKeepsDevice(kv: Kv, host: string, id: string)
    requires Read(HostAllocation(kv, host).0, Device(host, id)) != ""
    ensures PodAllocation(kv, host, id).0 == HostAllocation(kv, host).0
  {
  }

  // ---- what ADD answers ----

  /** The answer the texts of a store stand for. */
  function StoredConfig(kv: Kv, host: string, id: string): IPConfig
    requires ParseCIDR(Read(kv, Host(host))).Some?
  {
    IPConfig(AddressOf(Read(kv, Device(host, id))), ParseCIDR(Read(kv, Host(host))).value.net.bits,
             AddressOf(Read(kv, HostGateway(host))))
  }

  lemma HostAllocationStored(kv: Kv, host: string)
    requires HostName(host) && HostAllocation(kv, host).1.Ok?
    ensures Read(HostAllocation(kv, host).0, Host(host)) == HostAllocation(kv, host).1.value
  {
    var known := Read(kv, Host(host));
    if known == "" {
      var (kv1, ip) := FirstFromPool(kv, Pool);
      var kv2 := Write(kv1, Host(host), ip);
      var kv3 := Write(kv2, HostGateway(host), Gateway(ip).value);
      assert Host(host).Wf() && HostGateway(host).Wf() && HostPool(host).Wf();
      WriteOther(kv2, HostGateway(host), Gateway(ip).value, Host(host));
      WriteOther(kv3, HostPool(host), Join(ValidIps(ip).value, ';'), Host(host));
    }
  }

  lemma DeviceAnswer(kv: Kv, host: string, id: string, bits: nat)
    requires HostName(host) && '-' in id && DeviceAllocation(kv, host, id, bits).1.Ok?
    ensures var (kv', r) := DeviceAllocation(kv, host, id, bits);
            r.value == IPConfig(AddressOf(Read(kv', Device(host, id))), bits, AddressOf(Read(kv, HostGateway(host))))
  {
  }

  /** Whatever the store holds, an ADD that does not crash answers the address, the gateway and the
      prefix length that the store holds for the device and its host afterwards. */
  lemma AnswerFromStore(kv: Kv, host: string, id: string)
    requires HostName(host) && '-' in id && AddEffect(kv, host, id).1.Ok?
    ensures var (kv', r) := AddEffect(kv, host, id);
            ParseCIDR(Read(kv', Host(host))).Some? && r.value == StoredConfig(kv', host, id)
  {
    PodAnswer(Seeded(kv), host, id);
  }

  lemma PodAnswer(kv: Kv, host: string, id: string)
    requires HostName(host) && '-' in id && PodAllocation(kv, host, id).1.Ok?
    ensures var (kv', r) := PodAllocation(kv, host, id);
            ParseCIDR(Read(kv', Host(host))).Some? && r.value == StoredConfig(kv', host, id)
  {
    var (kv1, subnet) := HostAllocation(kv, host);
    HostAllocationStored(kv, host);
    KnownSubnetAnswer(kv1, host, id, ParseCIDR(subnet.value).value.net.bits);
  }

  lemma KnownSubnetAnswer(kv: Kv, host: string, id: string, bits: nat)
    requires HostName(host) && '-' in id && DeviceAllocation(kv, host, id, bits).1.Ok?
    requires ParseCIDR(Read(kv, Host(host))).Some? && ParseCIDR(Read(kv, Host(host))).value.net.bits == bits
    ensures var (kv', r) := DeviceAllocation(kv, host, id, bits);
            ParseCIDR(Read(kv', Host(host))).Some? && r.value == StoredConfig(kv', host, id)
  {
    assert Host(host).Wf() && HostGateway(host).Wf();
    DeviceAllocationFrame(kv, host, id, bits, Host(host));
    DeviceAllocationFrame(kv, host, id, bits, HostGateway(host));
    DeviceAnswer(kv, host, id, bits);
  }

  // ---- every exit, on every store ----

  lemma GatewayFailsIff(cidr: string)
    ensures Gateway(cidr).None? <==> '/' !in cidr
  {
    SplitCount(cidr, '/');
  }

  /** A known subnet is answered and nothing changes. Otherwise the first token of the pool text is taken
      and stored for the host before anything else is looked at, so it stays there when the token has no
      slash, and when it has one but does not parse; only a token that parses is answered, with the gateway
      and the listing stored. */
  lemma HostExits(kv: Kv, host: string)
    requires HostName(host)
    ensures Read(kv, Host(host)) != "" ==> HostAllocation(kv, host) == (kv, Ok(Read(kv, Host(host))))
    ensures Read(kv, Host(host)) == "" ==>
              var (kv', r) := HostAllocation(kv, host);
              var tokens := Split(Read(kv, Pool), ';');
              && Read(kv', Pool) == Join(tokens[1..], ';') && Read(kv', Host(host)) == tokens[0]
              && (r == Err(IndexPanic) <==> '/' !in tokens[0])
              && (r == Err(BadSubnet) <==> '/' in tokens[0] && ParseCIDR(tokens[0]).None?)
              && (r.Ok? ==> r.value == tokens[0] && HostIsSetUp(kv', host, tokens[0]))
  {
    if Read(kv, Host(host)) == "" {
      var (kv1, ip) := FirstFromPool(kv, Pool);
      var kv2 := Write(kv1, Host(host), ip);
      assert Pool.Wf() && Host(host).Wf();
      WriteOther(kv1, Host(host), ip, Pool);
      GatewayFailsIff(ip);
      ListingFailsIff(ip);
      SetUpKeeps(kv2, host, ip, Pool);
      SetUpKeeps(kv2, host, ip, Host(host));
      if Gateway(ip).Some? && ValidIps(ip).Ok? {
        SetUpStores(kv2, host, ip);
      }
    }
  }

  /** The store has the gateway and the pool that go with a subnet. */
  predicate HostIsSetUp(kv: Kv, host: string, subnet: string) {
    && Gateway(subnet).Some? && Read(kv, HostGateway(host)) == Gateway(subnet).value
    && ValidIps(subnet).Ok? && Read(kv, HostPool(host)) == Join(ValidIps(subnet).value, ';')
  }

  lemma SetUpStores(kv: Kv, host: string, ip: string)
    requires HostName(host) && Gateway(ip).Some? && ValidIps(ip).Ok?
    ensures HostIsSetUp(Write(Write(kv, HostGateway(host), Gateway(ip).value),
                              HostPool(host), Join(ValidIps(ip).value, ';')), host, ip)
  {
    assert HostGateway(host).Wf() && HostPool(host).Wf();
    WriteOther(Write(kv, HostGateway(host), Gateway(ip).value), HostPool(host), Join(ValidIps(ip).value, ';'),
               HostGateway(host));
  }

  lemma SetUpKeeps(kv: Kv, host: string, ip: string, k: Key)
    requires HostName(host) && k.Wf() && k != HostGateway(host) && k != HostPool(host)
    ensures Gateway(ip).Some? ==> Read(Write(kv, HostGateway(host), Gateway(ip).value), k) == Read(kv, k)
    ensures Gateway(ip).Some? && ValidIps(ip).Ok? ==>
              Read(Write(Write(kv, HostGateway(host), Gateway(ip).value),
                         HostPool(host), Join(ValidIps(ip).value, ';')), k) == Read(kv, k)
  {
    assert HostGateway(host).Wf() && HostPool(host).Wf();
    if Gateway(ip).Some? {
      WriteOther(kv, HostGateway(host), Gateway(ip).value, k);
      if ValidIps(ip).Ok? {
        WriteOther(Write(kv, HostGateway(host), Gateway(ip).value), HostPool(host),
                   Join(ValidIps(ip).value, ';'), k);
      }
    }
  }

  /** Exactly when the part of ADD after the seeding crashes: the host's set-up does, or the host's subnet
      or the address already stored for the device does not parse. */
  lemma PodCrashesIff(kv: Kv, host: string, id: string)
    requires HostName(host) && '-' in id
    ensures var (kv1, subnet) := HostAllocation(kv, host);
            PodAllocation(kv, host, id).1.Err? <==>
              || subnet.Err?
              || ParseCIDR(subnet.value).None?
              || (Read(kv, Device(host, id)) != "" && ParseCIDR(Read(kv, Device(host, id))).None?)
  {
    assert Device(host, id).Wf();
    HostAllocationFrame(kv, host, Device(host, id));
  }

  // ---- the operations ----

  method GetOneIPFromPool(poolKey: Key, cli: WrappedClient) returns (ans: string)
    modifies cli.etcd
    ensures (cli.etcd.kv, ans) == FirstFromPool(old(cli.etcd.kv), poolKey)
  {
    var val := cli.GetKV(poolKey.Path());
    var ippool := Split(val, ';');
    ans := ippool[0];
    cli.PutKV(poolKey.Path(), Join(ippool[1..], ';'));
  }

  /** The enumeration of the subnet the host would take ends: a subnet that ends at 255.255.255.255
      would keep it running for ever. */
  predicate ListingEnds(kv: Kv, host: string) {
    Read(kv, Host(host)) == "" ==> !ReachesTop(FirstFromPool(kv, Pool).1)
  }

  method AllocateIP2Host(cli: WrappedClient, host: string) returns (r: Result<string, Fault>)
    requires ListingEnds(cli.etcd.kv, host)
    modifies cli.etcd
    ensures (cli.etcd.kv, r) == HostAllocation(old(cli.etcd.kv), host)
  {
    var hostip := cli.GetKV(GetHostPath(host));
    if hostip != "" {
      return Ok(hostip);
    }
    var ip := GetOneIPFromPool(Pool, cli);
    cli.PutKV(GetHostPath(host), ip);
    var gwip := GetGateway(ip);
    if gwip.None? {
      return Err(IndexPanic);
    }
    cli.PutKV(GetHostGWPath(host), gwip.value);
    var ips := ListIPv4Addr(ip);
    if ips.Err? {
      return Err(BadSubnet);
    }
    cli.PutKV(GetHostIPPoolPath(host), Join(ips.value, ';'));
    r := Ok(ip);
  }

  method AllocateIP2Pod(containerID: string, ifName: string, cli: WrappedClient, host: string)
    returns (r: Result<IPConfig, Fault>)
    requires ListingEnds(cli.etcd.kv, host)
    modifies cli.etcd
    ensures (cli.etcd.kv, r) == PodAllocation(old(cli.etcd.kv), host, DeviceId(containerID, ifName))
  {
    var hoststring := cli.GetKV(GetHostPath(host));
    if hoststring == "" {
      var subnet := AllocateIP2Host(cli, host);
      if subnet.Err? {
        return Err(subnet.error);
      }
      hoststring := subnet.value;
    }
    var hostsubnet := ParseCIDR(hoststring);
    if hostsubnet.None? {
      return Err(BadSubnet);
    }
    var bits := hostsubnet.value.net.bits;
    r := AllocateDevice(DeviceId(containerID, ifName), cli, host, bits);
  }

  method AllocateDevice(id: string, cli: WrappedClient, host: string, bits: nat) returns (r: Result<IPConfig, Fault>)
    modifies cli.etcd
    ensures (cli.etcd.kv, r) == DeviceAllocation(old(cli.etcd.kv), host, id, bits)
  {
    var gwip := cli.GetKV(GetHostGWPath(host));
    var gw := AddressOf(gwip);
    var allocatedIP := cli.GetKV(GetNetDevicePath(host, id));
    if allocatedIP != "" {
      var address := ParseCIDR(allocatedIP);
      if address.None? {
        return Err(BadLease);
      }
      return Ok(IPConfig(Some(address.value.ip), bits, gw));
    }
    var hostIPPool := cli.GetKV(GetHostIPPoolPath(host));
    var ips := Split(hostIPPool, ';');
    var newIp := AddressOf(ips[0]);
    cli.PutKV(GetHostIPPoolPath(host), Join(ips[1..], ';'));
    cli.PutKV(GetNetDevicePath(host, id), ips[0]);
    r := Ok(IPConfig(newIp, bits, gw));
  }

  method ReleasePodIP(containerID: string, ifName: string, cli: WrappedClient, host: string)
    modifies cli.etcd
    ensures cli.etcd.kv == PodRelease(old(cli.etcd.kv), host, DeviceId(containerID, ifName))
  {
    var id := DeviceId(containerID, ifName);
    var allocatedIP := cli.GetKV(GetNetDevicePath(host, id));
    if allocatedIP == "" {
      return;
    }
    var hostIPPool := cli.GetKV(GetHostIPPoolPath(host));
    var ips := Split(hostIPPool, ';');
    ips := ips + [allocatedIP];
    cli.PutKV(GetHostIPPoolPath(host), Join(ips, ';'));
    cli.DelKV(GetNetDevicePath(host, id));
  }

  method FindByID(containerID: string, ifName: string, cli: WrappedClient, host: string) returns (found: bool)
    ensures found <==> Read(cli.etcd.kv, Device(host, DeviceId(containerID, ifName))) != ""
  {
    var res := cli.GetKV(GetNetDevicePath(host, DeviceId(containerID, ifName)));
    found := res != "";
  }

  method FindIPByID(containerID: string, ifName: string, cli: WrappedClient, host: string) returns (ip: string)
    ensures ip == Read(cli.etcd.kv, Device(host, DeviceId(containerID, ifName)))
  {
    ip := cli.GetKV(GetNetDevicePath(host, DeviceId(containerID, ifName)));
  }

  method CmdAdd(containerID: string, ifName: string, cli: WrappedClient, host: string)
    returns (r: Result<IPConfig, Fault>)
    requires ListingEnds(Seeded(cli.etcd.kv), host)
    modifies cli.etcd, cli`poolInitStatus
    ensures (cli.etcd.kv, r) == AddEffect(old(cli.etcd.kv), host, DeviceId(containerID, ifName))
  {
    var poolready := cli.GetInitPoolStatus();
    if !poolready {
      InitPool(cli);
    }
    r := AllocateIP2Pod(containerID, ifName, cli, host);
  }
}
