/** The ring of addresses the local allocator scans, and the exact behaviour of its scanning loop
    (plugins/ipam/local/main.go). */
module AddressRing {
  import opened Bits
  import opened Ipv4
  import opened Results

  /** The addresses strictly above the gateway, up to and including the top of the subnet. */
  datatype Ring = Ring(gw: nat, top: nat) {

    predicate Wf() {
      gw <= top
    }

    /** The number of addresses in the ring. */
    function N(): nat
      requires Wf()
    {
      top - gw
    }

    predicate Has(ip: nat) {
      gw < ip <= top
    }

    /** Where a scan may start: the gateway, or an address of the ring. */
    predicate Start(ip: nat) {
      gw <= ip <= top
    }

    /** How many steps forward from x, wrapping at the top, first reach y; the ring has no step 0,
        so an address is N steps after itself. */
    function Dist(x: nat, y: nat): (d: nat)
      requires Wf() && Start(x) && Has(y)
      ensures 1 <= d <= N()
    {
      if x < y then y - x else y - x + N()
    }

    /** The address k steps after x. */
    function At(x: nat, k: nat): (y: nat)
      requires Wf() && Start(x) && 1 <= k <= N()
      ensures Has(y) && Dist(x, y) == k
    {
      if x + k <= top then x + k else x + k - N()
    }

    /** ip is the first ring address outside used that a scan from last meets. */
    ghost predicate IsFirstFree(used: set<nat>, last: nat, ip: nat)
      requires Wf() && Start(last)
    {
      Has(ip) && ip !in used && forall b :: Has(b) && b !in used ==> Dist(last, ip) <= Dist(last, b)
    }

    ghost predicate Full(used: set<nat>) {
      forall b :: Has(b) ==> b in used
    }

    function Search(used: set<nat>, last: nat, k: nat): (r: Option<nat>)
      requires Wf() && Start(last) && 1 <= k <= N() + 1
      requires forall b :: Has(b) && Dist(last, b) < k ==> b in used
      ensures r.Some? ==> IsFirstFree(used, last, r.value)
      ensures r.None? ==> Full(used)
      decreases N() + 1 - k
    {
      if k > N() then
        assert forall b :: Has(b) ==> Dist(last, b) < k;
        None
      else if At(last, k) !in used then Some(At(last, k))
      else
        assert forall b :: Has(b) && Dist(last, b) == k ==> b == At(last, k);
        Search(used, last, k + 1)
    }

    /** The first free address in cyclic order after last, if any is free. */
    function FirstFree(used: set<nat>, last: nat): (r: Option<nat>)
      requires Wf() && Start(last)
      ensures r.Some? ==> IsFirstFree(used, last, r.value)
      ensures r.None? <==> Full(used)
    {
      Search(used, last, 1)
    }

    ghost function Addresses(): set<nat> {
      set b: nat | b <= top && Has(b)
    }
  }

  lemma FirstFreeUnique(r: Ring, used: set<nat>, last: nat, ip: nat)
    requires r.Wf() && r.Start(last) && r.IsFirstFree(used, last, ip)
    ensures r.FirstFree(used, last) == Some(ip)
  {
    var other := r.FirstFree(used, last);
    assert other.Some? && r.Dist(last, ip) == r.Dist(last, other.value);
  }

  lemma {:induction false} RingSize(r: Ring)
    requires r.Wf()
    ensures |r.Addresses()| == r.N()
    decreases r.top
  {
    if r.gw == r.top {
      assert r.Addresses() == {};
    } else {
      var smaller := Ring(r.gw, r.top - 1);
      RingSize(smaller);
      assert r.Addresses() == smaller.Addresses() + {r.top};
    }
  }

  // ---- the subnet a ring comes from ----

  /** A subnet with room for a gateway. */
  predicate HasGateway(net: IPNet) {
    net.Wf() && net.Size() >= 2
  }

  function RingOf(net: IPNet): (r: Ring)
    requires HasGateway(net)
    ensures r.Wf()
  {
    Ring(net.base + 1, net.Top())
  }

  /** IPAM.NextIP: None is the overflow error. What follows 255.255.255.255 lies in no subnet. */
  function NextIP(net: IPNet, ip: nat): Option<nat>
    requires net.bits <= 32
  {
    if ip + 1 < WORD && net.Contains(ip + 1) then Some(ip + 1) else None
  }

  /** The same with the subnet's range in place of its mask. */
  function NextInRange(net: IPNet, ip: nat): Option<nat>
    requires net.bits <= 32
  {
    if net.base <= ip + 1 <= net.Top() then Some(ip + 1) else None
  }

  lemma NextIPRange(net: IPNet, ip: nat)
    requires net.Wf()
    ensures NextIP(net, ip) == NextInRange(net, ip)
  {
    TopInWord(net);
    if ip + 1 < WORD {
      ContainsIsRange(net, ip + 1);
    }
  }

  // ---- exactly when the scanning loop ends ----

  datatype Probe = At(start: nat) | Found(ip: nat) | Overflow | Exhausted

  /** One round of the loop, from the loop variable start; NextIPRange gives its next address. */
  function ProbeStep(net: IPNet, used: set<nat>, last: nat, start: nat): Probe
    requires HasGateway(net)
  {
    var gw := RingOf(net).gw;
    match NextInRange(net, start)
    case None => if last != gw then At(gw) else Overflow
    case Some(next) =>
      if next !in used then Found(next) else if next == last then Exhausted else At(next)
  }

  function Probes(net: IPNet, used: set<nat>, last: nat, p: Probe, k: nat): Probe
    requires HasGateway(net)
    decreases k
  {
    if k == 0 || !p.At? then p else Probes(net, used, last, ProbeStep(net, used, last, p.start), k - 1)
  }

  ghost predicate ScanEnds(net: IPNet, used: set<nat>, last: nat)
    requires HasGateway(net)
  {
    exists k :: !Probes(net, used, last, At(last), k).At?
  }

  /** What a caller can check beforehand: the pointer is the gateway or in the ring, or some address
      the scan will look at is free. A pointer just below the gateway makes the scan look at the
      network and gateway addresses too. */
  ghost predicate ScanWillEnd(net: IPNet, used: set<nat>, last: nat)
    requires HasGateway(net)
  {
    var r := RingOf(net);
    || r.Start(last)
    || !r.Full(used)
    || (net.base <= last + 1 <= r.gw && exists b :: last < b <= r.gw && b !in used)
  }

  /** The unbounded loop ends exactly under that condition: with a pointer outside the ring and every
      address leased it runs for ever. */
  lemma ScanEndsIff(net: IPNet, used: set<nat>, last: nat)
    requires HasGateway(net)
    ensures ScanEnds(net, used, last) <==> ScanWillEnd(net, used, last)
  {
    if ScanWillEnd(net, used, last) {
      var k := EndsFrom(net, used, last, last, false);
      assert !Probes(net, used, last, At(last), k).At?;
    } else {
      forall k: nat ensures Probes(net, used, last, At(last), k).At? {
        NeverEnds(net, used, last, last, k);
      }
    }
  }

  lemma {:induction false} NeverEnds(net: IPNet, used: set<nat>, last: nat, start: nat, k: nat)
    requires HasGateway(net) && !ScanWillEnd(net, used, last)
    requires start == last || (last < start <= net.base + 1 && net.base <= last + 1) || RingOf(net).Start(start)
    ensures Probes(net, used, last, At(start), k).At?
    decreases k
  {
    if k > 0 {
      TopInWord(net);
      var p := ProbeStep(net, used, last, start);
      assert p.At?;
      NeverEnds(net, used, last, p.start, k - 1);
    }
  }

  /** Rounds left: those of the current pass, and of the pass after the wrap. */
  function RoundsLeft(net: IPNet, last: nat, start: nat, wrapped: bool): nat
    requires HasGateway(net)
  {
    var r := RingOf(net);
    if wrapped then (if start <= r.top then r.top - start else 0)
    else (if start <= r.top then r.top + 1 - start else 0) + r.N() + 2
  }

  lemma {:induction false} EndsFrom(net: IPNet, used: set<nat>, last: nat, start: nat, wrapped: bool) returns (k: nat)
    requires HasGateway(net) && ScanWillEnd(net, used, last)
    requires if wrapped then RingOf(net).Start(start) && WrappedScan(RingOf(net), used, last, start)
             else start == last || FirstPassScan(net, used, last, start)
    ensures !Probes(net, used, last, At(start), k).At?
    decreases RoundsLeft(net, last, start, wrapped)
  {
    var p := ProbeStep(net, used, last, start);
    if p.At? {
      var wrapped' := wrapped || NextInRange(net, start).None?;
      if wrapped {
        WrappedStep(net, used, last, start);
      } else {
        FirstPassStep(net, used, last, start);
      }
      k := EndsFrom(net, used, last, p.start, wrapped');
      k := k + 1;
    } else {
      k := 1;
      assert Probes(net, used, last, At(start), 1) == p;
    }
  }

  lemma FirstPassStep(net: IPNet, used: set<nat>, last: nat, start: nat)
    requires HasGateway(net) && ScanWillEnd(net, used, last) && ProbeStep(net, used, last, start).At?
    requires start == last || FirstPassScan(net, used, last, start)
    ensures var next, wrapped := ProbeStep(net, used, last, start).start, NextInRange(net, start).None?;
            && (if wrapped then RingOf(net).Start(next) && WrappedScan(RingOf(net), used, last, next)
                else FirstPassScan(net, used, last, next))
            && RoundsLeft(net, last, next, wrapped) < RoundsLeft(net, last, start, false)
  {
  }

  lemma WrappedStep(net: IPNet, used: set<nat>, last: nat, start: nat)
    requires HasGateway(net) && ProbeStep(net, used, last, start).At?
    requires RingOf(net).Start(start) && WrappedScan(RingOf(net), used, last, start)
    ensures var next := ProbeStep(net, used, last, start).start;
            && RingOf(net).Start(next) && WrappedScan(RingOf(net), used, last, next)
            && RoundsLeft(net, last, next, true) < RoundsLeft(net, last, start, true)
  {
  }

  /** Before the wrap: everything passed is leased. */
  ghost predicate FirstPassScan(net: IPNet, used: set<nat>, last: nat, start: nat)
    requires net.bits <= 32
  {
    last < start <= net.Top() && net.base <= last + 1 && forall b :: last < b <= start ==> b in used
  }

  /** After the wrap: everything passed is leased, and either the pointer lies ahead in the ring or
      something free does. */
  ghost predicate WrappedScan(r: Ring, used: set<nat>, last: nat, start: nat) {
    && last != r.gw
    && (forall b :: r.gw < b <= start ==> b in used)
    && ((r.Has(last) && start < last) || (exists b :: start < b <= r.top && b !in used))
  }
}
