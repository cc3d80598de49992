/** The local IPAM plugin's critical sections (plugins/ipam/local/main.go), as one process runs them
    while it holds the file lock. */
module LocalIpam {
  import opened AddressRing
  import opened Bits
  import opened Ipv4
  import opened LeaseStore
  import opened LeaseTable
  import opened Results

  datatype ConfigError = BadSubnet | NoGateway | Crash

  /** What the address library makes of the successor of 255.255.255.255: something that lies in no
      subnet, or a panic. */
  datatype AfterTop = Outside | Panics

  class IPAM {
    const subnet: IPNet
    const gateway: nat
    const store: Store
    const afterTop: AfterTop

    constructor (subnet: IPNet, gateway: nat, store: Store, afterTop: AfterTop)
      ensures this.subnet == subnet && this.gateway == gateway && this.store == store && this.afterTop == afterTop
    {
      this.subnet, this.gateway, this.store, this.afterTop := subnet, gateway, store, afterTop;
    }

    predicate Ready() {
      HasGateway(subnet) && gateway == RingOf(subnet).gw
    }

    /** A scan of the table runs past 255.255.255.255, in a library that panics there: the subnet ends at
        that address, and everything after the pointer is leased. */
    ghost predicate ScanPanics(table: Data)
      requires Ready()
    {
      && afterTop.Panics? && subnet.Top() == WORD - 1
      && forall b :: RingOf(subnet).Has(b) && Pointer(RingOf(subnet), table) < b ==> b in table.ips
    }

    /** The lock holder may rely on the file's table being a reachable one. */
    ghost predicate FileOk()
      requires Ready()
      reads store.file
    {
      store.file.content.Content? ==> Inv(RingOf(subnet), store.file.content.data)
    }

    ghost function Table(): Data
      reads store.file
    {
      if store.file.content.Content? then store.file.content.data else EMPTY
    }

    /** The address after ip; None is the overflow error. */
    method NextIP(ip: nat) returns (next: Option<nat>, panics: bool)
      requires Ready()
      ensures next == NextInRange(subnet, ip)
      ensures panics <==> afterTop.Panics? && ip == WORD - 1
    {
      NextIPRange(subnet, ip);
      next, panics := AddressRing.NextIP(subnet, ip), afterTop.Panics? && ip == WORD - 1;
    }

    /** probes counts the lease lookups of the scan, wraps its returns to the gateway. */
    method AllocateIP(id: string, ifName: string) returns (reply: Reply, ghost probes: nat, ghost wraps: nat)
      requires Ready() && FileOk()
      modifies store`data, store.file
      ensures old(store.file.content).Partial? ==>
                reply == Failed(BadJson) && store.file.content == Partial && store.data == old(store.data)
      ensures !old(store.file.content).Partial? ==>
                && (store.data, reply) == (if LeaseOf(old(Table()), id).None? && ScanPanics(old(Table()))
                                           then (old(Table()), Failed(Panicked))
                                           else Apply(RingOf(subnet), old(Table()), Add(id, ifName)))
                && store.file.content == Content(store.data)
      ensures probes <= RingOf(subnet).N() && wraps <= 1
    {
      probes, wraps := 0, 0;
      var loaded := store.LoadData();
      if loaded.Err? {
        return Failed(loaded.error), probes, wraps;
      }
      var held := store.GetIPByID(id);
      if held.Some? {
        return Granted(held.value), probes, wraps;
      }
      ghost var ring := RingOf(subnet);
      ghost var table := store.data;
      ghost var used := table.ips.Keys;
      var last: nat := gateway;
      if store.Last().Some? {
        last := store.Last().value;
      }
      var start: nat := last;
      TopInWord(subnet);
      while true
        invariant store.data == table && store.file.content == Content(table)
        invariant ring.Start(start) && wraps <= 1
        invariant if wraps == 0 then last <= start else start < last
        invariant wraps == 1 && afterTop.Panics? ==> ring.top < WORD - 1
        invariant forall b :: ring.Has(b) && Passed(last, start, wraps, b) ==> b in used
        invariant probes == if wraps == 0 then start - last else ring.top - last + start - ring.gw
        decreases 1 - wraps, ring.top - start
      {
        var next, panics := NextIP(start);
        if panics {
          return Failed(Panicked), probes, wraps;
        }
        if next.None? && last != gateway {
          start := gateway;
          wraps := wraps + 1;
          continue;
        } else if next.None? {
          PassedAll(ring, used, last, start);
          return Failed(IPOverflow), probes, wraps;
        }
        probes := probes + 1;
        if !store.Contain(next.value) {
          FoundFirst(ring, used, last, start, wraps);
          store.Add(next.value, id, ifName);
          return Granted(next.value), probes, wraps;
        }
        ghost var passed := start;
        start := next.value;
        if start == last {
          CameRound(ring, used, last, passed, wraps);
          break;
        }
      }
      reply := Failed(NoAvailableIP);
    }

    method ReleaseIP(id: string) returns (reply: Reply)
      requires Ready() && FileOk()
      modifies store`data, store.file
      ensures old(store.file.content).Partial? ==>
                reply == Failed(BadJson) && store.file.content == Partial && store.data == old(store.data)
      ensures !old(store.file.content).Partial? ==>
                && (store.data, reply) == Apply(RingOf(subnet), old(Table()), Del(id))
                && store.file.content == Content(store.data)
    {
      var loaded := store.LoadData();
      if loaded.Err? {
        return Failed(loaded.error);
      }
      store.Del(id);
      reply := Done;
    }

    method CheckIP(id: string) returns (reply: Reply)
      requires Ready() && FileOk()
      modifies store`data, store.file
      ensures old(store.file.content).Partial? ==>
                reply == Failed(BadJson) && store.file.content == Partial && store.data == old(store.data)
      ensures !old(store.file.content).Partial? ==>
                && (store.data, reply) == Apply(RingOf(subnet), old(Table()), Check(id))
                && store.file.content == Content(store.data)
    {
      var loaded := store.LoadData();
      if loaded.Err? {
        return Failed(loaded.error);
      }
      var ip := store.GetIPByID(id);
      if ip.None? {
        return Failed(NotFound);
      }
      reply := Granted(ip.value);
    }
  }

  /** What the scan has looked at when its loop variable is start. */
  predicate Passed(last: nat, start: nat, wraps: nat, b: nat) {
    if wraps == 0 then last < b <= start else b > last || b <= start
  }

  lemma PassedAll(r: Ring, used: set<nat>, last: nat, start: nat)
    requires last == r.gw && start == r.top
    requires forall b :: r.Has(b) && Passed(last, start, 0, b) ==> b in used
    ensures r.Full(used)
  {
  }

  lemma CameRound(r: Ring, used: set<nat>, last: nat, start: nat, wraps: nat)
    requires r.Has(last) && start + 1 == last && last in used && wraps == 1
    requires forall b :: r.Has(b) && Passed(last, start, wraps, b) ==> b in used
    ensures r.Full(used)
  {
  }

  lemma FoundFirst(r: Ring, used: set<nat>, last: nat, start: nat, wraps: nat)
    requires r.Wf() && r.Start(last) && r.Start(start) && r.Has(start + 1) && start + 1 !in used && wraps <= 1
    requires if wraps == 0 then last <= start else start < last
    requires forall b :: r.Has(b) && Passed(last, start, wraps, b) ==> b in used
    ensures r.FirstFree(used, last) == Some(start + 1)
  {
    assert r.IsFirstFree(used, last, start + 1);
    FirstFreeUnique(r, used, last, start + 1);
  }

  /** The gateway is the address after the network's; a subnet of a single address has none. */
  method NewIPAM(subnetConf: string, store: Store, afterTop: AfterTop) returns (r: Result<IPAM, ConfigError>)
    ensures r == Err(BadSubnet) <==> ParseCIDR(subnetConf).None?
    ensures r.Ok? <==> ParseCIDR(subnetConf).Some? && ParseCIDR(subnetConf).value.net.bits <= 31
    ensures r == Err(Crash) <==> ParseCIDR(subnetConf).Some? && afterTop.Panics?
                                 && ParseCIDR(subnetConf).value.net.base == WORD - 1
    ensures r.Ok? ==> r.value.subnet == ParseCIDR(subnetConf).value.net && r.value.store == store
                      && r.value.subnet.Contains(ParseCIDR(subnetConf).value.ip)
                      && r.value.gateway == r.value.subnet.base + 1 && r.value.subnet.Contains(r.value.gateway)
                      && r.value.Ready() && r.value.afterTop == afterTop
  {
    var parsed := ParseCIDR(subnetConf);
    if parsed.None? {
      return Err(BadSubnet);
    }
    var subnet := parsed.value.net;
    ParsedContains(subnetConf);
    NextIPRange(subnet, subnet.base);
    SizeOfPrefix(subnet);
    TopInWord(subnet);
    if afterTop.Panics? && subnet.base == WORD - 1 {
      return Err(Crash);
    }
    var gateway := AddressRing.NextIP(subnet, subnet.base);
    if gateway.None? {
      return Err(NoGateway);
    }
    ContainsIsRange(subnet, gateway.value);
    var ipam := new IPAM(subnet, gateway.value, store, afterTop);
    r := Ok(ipam);
  }

  lemma SizeOfPrefix(net: IPNet)
    requires net.Wf()
    ensures net.Size() >= 2 <==> net.bits <= 31
  {
    if net.bits <= 31 {
      Pow2Monotone(1, 32 - net.bits);
    }
  }
}
