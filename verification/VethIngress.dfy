/** The datapath program attached to a pod's host-side interface (ebpf/veth_ingress.bpf.c). */
module VethIngress {
  import opened Bits
  import opened EndpointMap
  import opened Ipv4
  import opened Results

  // ---- byte order ----

  datatype Endian = Little | Big

  function WordOf(a: int, b: int, c: int, d: int): int {
    a * 0x100_0000 + b * 0x1_0000 + c * 0x100 + d
  }

  /** The number a host of the given byte order reads from four bytes of memory. */
  function LoadU32(order: Endian, b: seq<Byte>): (n: nat)
    requires |b| == 4
    ensures n < WORD
  {
    if order == Big then WordOf(b[0], b[1], b[2], b[3]) else WordOf(b[3], b[2], b[1], b[0])
  }

  function Swap32(n: nat): nat
    requires n < WORD
  {
    var o := Octets(n);
    WordOf(o[3], o[2], o[1], o[0])
  }

  /** bpf_htonl and bpf_htons swap bytes on a little-endian host and do nothing on the other. */
  function Htonl(order: Endian, n: nat): nat
    requires n < WORD
  {
    if order == Big then n else Swap32(n)
  }

  function Htons(order: Endian, n: nat): nat
    requires n < 0x1_0000
  {
    if order == Big then n else n % 0x100 * 0x100 + n / 0x100
  }

  /** The bytes of an address on the wire: section 3.1 of RFC 791, most significant octet first. */
  function WireBytes(a: nat): (b: seq<Byte>)
    requires a < WORD
    ensures |b| == 4
  {
    var o := Octets(a);
    [o[0], o[1], o[2], o[3]]
  }

  /** The key the program rebuilds from the wire bytes is the address, whatever the host's byte order. */
  lemma KeyFromWire(order: Endian, a: nat)
    requires a < WORD
    ensures Htonl(order, LoadU32(order, WireBytes(a))) == a
  {
    var o := Octets(a);
    if order == Little {
      var n := LoadU32(Little, WireBytes(a));
      OctetsUnique(n, o[3], o[2], o[1], o[0]);
    }
  }

  /** And the wire bytes are the key's, so different destinations have different keys. */
  lemma WireOfKey(order: Endian, b: seq<Byte>)
    requires |b| == 4
    ensures WireBytes(Htonl(order, LoadU32(order, b))) == b
  {
    if order == Little {
      OctetsUnique(LoadU32(Little, b), b[3], b[2], b[1], b[0]);
    }
    OctetsUnique(LoadU32(Big, b), b[0], b[1], b[2], b[3]);
  }

  /** The key under which the plugin stores an address, through its text, is the key the program looks
      up for a packet sent to it. */
  lemma KeysAgree(order: Endian, a: nat)
    requires a < WORD
    ensures InetValue(Dotted(a)) == Some(Htonl(order, LoadU32(order, WireBytes(a))))
  {
    DottedQuad(a);
    InetValueOfQuad(Dotted(a));
    KeyFromWire(order, a);
  }

  // ---- the program ----

  const ETH_P_IP: nat := 0x0800
  const ETH_HLEN: nat := 14
  const IP_HLEN: nat := 20
  /** Offset of the destination address in the frame. */
  const DADDR: nat := 30

  /** NodeLookup is the path for addresses that are not in the endpoint map; it is not modelled. */
  datatype Verdict = Unspec | RedirectPeer(ifindex: nat) | NodeLookup(dst: nat)

  /** The frame after redirection: destination MAC from the entry, source MAC the old destination. */
  function Rewritten(frame: seq<Byte>, mac: seq<Byte>): (r: seq<Byte>)
    requires |frame| >= 12 && |mac| >= ETH_ALEN
    ensures |r| == |frame|
  {
    mac[..ETH_ALEN] + frame[..ETH_ALEN] + frame[2 * ETH_ALEN..]
  }

  predicate Inspects(protocol: nat, order: Endian, frame: seq<Byte>) {
    protocol == Htons(order, ETH_P_IP) && |frame| >= ETH_HLEN + IP_HLEN
  }

  function DstKey(order: Endian, frame: seq<Byte>): nat
    requires |frame| >= ETH_HLEN + IP_HLEN
  {
    Htonl(order, LoadU32(order, frame[DADDR..DADDR + 4]))
  }

  /** What the program answers, and the frame it leaves. */
  function IngressOutcome(entries: Entries, protocol: nat, order: Endian, frame: seq<Byte>): (Verdict, seq<Byte>)
    requires forall k :: k in entries ==> InfoOk(entries[k])
  {
    if !Inspects(protocol, order, frame) then (Unspec, frame)
    else
      var key := DstKey(order, frame);
      if key in entries then
        assert InfoOk(entries[key]);
        (RedirectPeer(entries[key].lxcIfIndex), Rewritten(frame, entries[key].lxcVethMac))
      else (NodeLookup(key), frame)
  }

  method SkbStoreBytes(skb: array<Byte>, offset: nat, from: array<Byte>)
    requires skb != from && offset + from.Length <= skb.Length
    modifies skb
    ensures skb[..] == old(skb[..offset]) + from[..] + old(skb[offset + from.Length..])
  {
    var i := 0;
    while i < from.Length
      invariant 0 <= i <= from.Length
      invariant skb[..] == old(skb[..offset]) + from[..i] + old(skb[offset + i..])
    {
      skb[offset + i] := from[i];
      i := i + 1;
    }
  }

  method Ingress(skb: array<Byte>, protocol: nat, order: Endian, m: LxcMap) returns (verdict: Verdict)
    requires m.Valid()
    modifies skb
    ensures (verdict, skb[..]) == IngressOutcome(m.entries, protocol, order, old(skb[..]))
  {
    if protocol != Htons(order, ETH_P_IP) {
      return Unspec;
    }
    if ETH_HLEN > skb.Length {
      return Unspec;
    }
    if ETH_HLEN + IP_HLEN > skb.Length {
      return Unspec;
    }
    var dstIp := Htonl(order, LoadU32(order, skb[DADDR..DADDR + 4]));
    assert skb[DADDR..DADDR + 4] == skb[..][DADDR..DADDR + 4];
    var srcMac := new Byte[6] [0xee, 0xb5, 0x4d, 0x5a, 0xed, 0xaf];
    var dstMac := new Byte[6] [0x42, 0x7a, 0x42, 0x79, 0xf2, 0xbe];
    var ep := m.GetKeyValueFromLxcMap(dstIp);
    if ep.None? {
      return NodeLookup(dstIp);
    }
    var i := 0;
    while i < ETH_ALEN
      invariant 0 <= i <= ETH_ALEN && skb[..] == old(skb[..])
      invariant srcMac[..i] == skb[..i] && dstMac[..i] == ep.value.lxcVethMac[..i]
    {
      srcMac[i] := skb[i];
      dstMac[i] := ep.value.lxcVethMac[i];
      i := i + 1;
    }
    StoreMacs(skb, srcMac, dstMac);
    assert srcMac[..] == old(skb[..])[..6] && dstMac[..] == ep.value.lxcVethMac[..6];
    verdict := RedirectPeer(ep.value.lxcIfIndex);
  }

  /** The source MAC is stored at offset 6, then the destination MAC at offset 0. */
  method StoreMacs(skb: array<Byte>, srcMac: array<Byte>, dstMac: array<Byte>)
    requires skb != srcMac && skb != dstMac && srcMac.Length == dstMac.Length == 6 && skb.Length >= 12
    modifies skb
    ensures skb[..] == dstMac[..] + srcMac[..] + old(skb[..])[12..]
  {
    SkbStoreBytes(skb, 6, srcMac);
    SkbStoreBytes(skb, 0, dstMac);
  }

  /** Rewriting changes the two MAC addresses and no other byte. */
  lemma RewrittenBytes(frame: seq<Byte>, mac: seq<Byte>)
    requires |frame| >= 12 && |mac| >= ETH_ALEN
    ensures var r := Rewritten(frame, mac);
            && r[..6] == mac[..6] && r[6..12] == frame[..6]
            && forall i :: 12 <= i < |frame| ==> r[i] == frame[i]
  {
  }

  /** An inspected frame for address a: with an entry for a it is redirected to the entry's interface and
      rewritten, without one it is left alone. */
  lemma InspectedFrame(entries: Entries, protocol: nat, order: Endian, frame: seq<Byte>, a: nat)
    requires forall k :: k in entries ==> InfoOk(entries[k])
    requires a < WORD && Inspects(protocol, order, frame) && frame[DADDR..DADDR + 4] == WireBytes(a)
    ensures var (verdict, frame') := IngressOutcome(entries, protocol, order, frame);
            && |frame'| == |frame| && (forall i :: 12 <= i < |frame| ==> frame'[i] == frame[i])
            && (a in entries ==>
                  && InfoOk(entries[a])
                  && verdict == RedirectPeer(entries[a].lxcIfIndex)
                  && frame'[..6] == entries[a].lxcVethMac[..6] && frame'[6..12] == frame[..6])
            && (a !in entries ==> verdict == NodeLookup(a) && frame' == frame)
  {
    KeyFromWire(order, a);
    if a in entries {
      assert InfoOk(entries[a]);
      RewrittenBytes(frame, entries[a].lxcVethMac);
    }
  }

  /** Only the EtherType bytes 08 00, as a host of either byte order loads them, are inspected. */
  lemma InspectsIpv4(order: Endian, t0: Byte, t1: Byte, frame: seq<Byte>)
    ensures Inspects(if order == Big then t0 * 0x100 + t1 else t1 * 0x100 + t0, order, frame) <==>
            t0 == 0x08 && t1 == 0x00 && |frame| >= 34
  {
  }

  /** The wire bytes of the number four bytes stand for, most significant first. */
  lemma WireOfBytes(b: seq<Byte>)
    requires |b| == 4
    ensures var a := b[0] as int * 0x100_0000 + b[1] as int * 0x1_0000 + b[2] as int * 0x100 + b[3] as int;
            0 <= a < WORD && WireBytes(a) == b
  {
    var a := b[0] as int * 0x100_0000 + b[1] as int * 0x1_0000 + b[2] as int * 0x100 + b[3] as int;
    OctetsUnique(a, b[0], b[1], b[2], b[3]);
  }

  /** Every frame, on a host of either byte order, with the EtherType bytes t0 and t1. Anything but IPv4,
      and an IPv4 frame too short for its headers, is left alone. Otherwise the destination address is read
      from bytes 30 to 33: with an entry for it the frame is redirected to the entry's interface, gets the
      entry's host MAC as destination and its old destination MAC as source; without one it is left alone. */
  lemma FrameFor(entries: Entries, order: Endian, t0: Byte, t1: Byte, frame: seq<Byte>)
    requires forall k :: k in entries ==> InfoOk(entries[k])
    ensures var protocol := if order == Big then t0 * 0x100 + t1 else t1 * 0x100 + t0;
            var (verdict, frame') := IngressOutcome(entries, protocol, order, frame);
            if t0 != 0x08 || t1 != 0x00 || |frame| < 34 then verdict == Unspec && frame' == frame
            else
              var a := frame[30] as int * 0x100_0000 + frame[31] as int * 0x1_0000 + frame[32] as int * 0x100
                       + frame[33] as int;
              && |frame'| == |frame| && (forall i :: 12 <= i < |frame| ==> frame'[i] == frame[i])
              && (a in entries ==>
                    && InfoOk(entries[a])
                    && verdict == RedirectPeer(entries[a].lxcIfIndex)
                    && frame'[..6] == entries[a].lxcVethMac[..6] && frame'[6..12] == frame[..6])
              && (a !in entries ==> verdict == NodeLookup(a) && frame' == frame)
  {
    InspectsIpv4(order, t0, t1, frame);
    if t0 == 0x08 && t1 == 0x00 && |frame| >= 34 {
      var protocol := if order == Big then t0 * 0x100 + t1 else t1 * 0x100 + t0;
      var a := frame[30] as int * 0x100_0000 + frame[31] as int * 0x1_0000 + frame[32] as int * 0x100
               + frame[33] as int;
      WireOfBytes(frame[30..34]);
      InspectedFrame(entries, protocol, order, frame, a);
    }
  }
}
