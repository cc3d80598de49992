/** The plugin and the datapath together: after any history of plugin calls, packets for an address go
    where the plugin last said. */
module Datapath {
  import opened Bits
  import opened EndpointMap
  import opened Ipv4
  import opened VethIngress

  /** The plugin calls that change the endpoint map, with the CIDR text of the pod or the address texts
      of the deleted link. */
  datatype Event = Set(podIP: string, hostVeth: Veth, nsVeth: Veth) | Delete(podIPs: seq<string>) | Reset

  /** The calls that neither fail to parse nor panic, on IPv4 addresses. */
  predicate EventOk(e: Event) {
    match e
    case Set(podIP, hostVeth, nsVeth) =>
      ParseCIDR(podIP).Some? && |hostVeth.hardwareAddr| <= 8 && |nsVeth.hardwareAddr| <= 8
    case Delete(podIPs) => AllParse(podIPs) && forall i :: 0 <= i < |podIPs| ==> IsQuad(podIPs[i])
    case Reset => true
  }

  function AddressOf(e: Event): nat
    requires e.Set? && EventOk(e)
  {
    ParseCIDR(e.podIP).value.ip
  }

  /** What SetVethPairInfo2LxcMap, DelAddresses and ResetLxcMap do to the map. */
  function Effect(entries: Entries, e: Event): Entries
    requires EventOk(e)
  {
    match e
    case Set(_, hostVeth, nsVeth) => Put(entries, AddressOf(e), InfoOf(hostVeth, nsVeth))
    case Delete(podIPs) => Without(entries, KeysOf(podIPs))
    case Reset => map[]
  }

  /** The plugin code of each call has that effect on the shared map. */
  method Call(e: Event, m: LxcMap)
    requires m.Valid() && EventOk(e)
    modifies m
    ensures m.Valid() && m.entries == Effect(old(m.entries), e)
  {
    match e
    case Set(podIP, hostVeth, nsVeth) =>
      var outcome := SetVethPairInfo2LxcMap(podIP, hostVeth, nsVeth, m);
    case Delete(podIPs) =>
      var done := DelAddresses(podIPs, m);
      assert podIPs[..|podIPs|] == podIPs;
    case Reset =>
      var count, ok := m.ResetLxcMap();
  }

  ghost predicate Next(entries: Entries, e: Event, entries': Entries) {
    EventOk(e) && entries' == Effect(entries, e)
  }

  /** tables[k] is the map before event k. */
  ghost predicate IsHistory(tables: seq<Entries>, events: seq<Event>) {
    && |tables| == |events| + 1
    && tables[0] == map[]
    && forall k :: 0 <= k < |events| ==> Next(tables[k], events[k], tables[k + 1])
  }

  /** What an event means for one address: it stores an entry, deletes it, or neither. */
  datatype Mark = Stores | Deletes | Neither

  function MarkOf(entries: Entries, e: Event, a: nat): Mark
    requires a < WORD && EventOk(e)
  {
    if e.Set? && AddressOf(e) == a && Room(entries, a) then Stores
    else if e.Reset? || (e.Delete? && Dotted(a) in e.podIPs) then Deletes
    else Neither
  }

  ghost function MarksOf(tables: seq<Entries>, events: seq<Event>, a: nat): (marks: seq<Mark>)
    requires IsHistory(tables, events) && a < WORD
    ensures |marks| == |events|
    ensures forall k :: 0 <= k < |events| ==>
              Next(tables[k], events[k], tables[k + 1]) && marks[k] == MarkOf(tables[k], events[k], a)
  {
    seq(|events|, k requires 0 <= k < |events| =>
      assert Next(tables[k], events[k], tables[k + 1]);
      MarkOf(tables[k], events[k], a))
  }

  /** Event i is the latest to store an entry among the first n, and the entry has not been deleted. */
  ghost predicate Latest(marks: seq<Mark>, n: nat, i: nat)
    requires n <= |marks|
  {
    i < n && marks[i] == Stores && forall j :: i < j < n ==> marks[j] == Neither
  }

  /** What one event does to the entry for one address. */
  lemma EffectOn(entries: Entries, e: Event, a: nat)
    requires EventOk(e) && a < WORD
    ensures var entries' := Effect(entries, e);
            match MarkOf(entries, e, a)
            case Stores => e.Set? && a in entries' && entries'[a] == InfoOf(e.hostVeth, e.nsVeth)
            case Deletes => a !in entries'
            case Neither => (a in entries' <==> a in entries) && (a in entries ==> entries'[a] == entries[a])
  {
    if e.Delete? {
      KeyListed(e.podIPs, a);
    }
  }

  /** Event i is a Set with this entry. */
  predicate Wrote(e: Event, info: EndpointMapInfo) {
    EventOk(e) && e.Set? && info == InfoOf(e.hostVeth, e.nsVeth)
  }

  /** The map holds an entry for an address exactly if the latest stored one has not been deleted, and
      then it is that one. */
  lemma {:induction false} MapIsLatest(tables: seq<Entries>, events: seq<Event>, n: nat, a: nat)
    requires IsHistory(tables, events) && n <= |events| && a < WORD
    ensures a in tables[n] ==>
              exists i: nat :: Latest(MarksOf(tables, events, a), n, i) && Wrote(events[i], tables[n][a])
    ensures a !in tables[n] ==> forall i: nat :: !Latest(MarksOf(tables, events, a), n, i)
    decreases n
  {
    var marks := MarksOf(tables, events, a);
    if n > 0 {
      MapIsLatest(tables, events, n - 1, a);
      var before, e, after := tables[n - 1], events[n - 1], tables[n - 1 + 1];
      assert Next(before, e, after);
      EffectOn(before, e, a);
      LatestOneMore(marks, n);
      if marks[n - 1] == Neither && a in before {
        var i: nat :| Latest(marks, n - 1, i) && Wrote(events[i], before[a]);
        assert Latest(marks, n, i) && Wrote(events[i], after[a]);
      }
    }
  }

  lemma LatestOneMore(marks: seq<Mark>, n: nat)
    requires 0 < n <= |marks|
    ensures marks[n - 1] == Stores ==> Latest(marks, n, n - 1)
    ensures forall i: nat :: Latest(marks, n, i) ==>
              marks[n - 1] == Stores || (marks[n - 1] == Neither && Latest(marks, n - 1, i))
    ensures marks[n - 1] == Neither ==> forall i: nat :: Latest(marks, n - 1, i) ==> Latest(marks, n, i)
  {
  }

  lemma LatestUnique(marks: seq<Mark>, n: nat, i: nat, j: nat)
    requires n <= |marks| && Latest(marks, n, i) && Latest(marks, n, j)
    ensures i == j
  {
  }

  lemma {:induction false} MapBounded(tables: seq<Entries>, events: seq<Event>, n: nat)
    requires IsHistory(tables, events) && n <= |events|
    ensures |tables[n]| <= 32
    ensures forall k :: k in tables[n] ==> InfoOk(tables[n][k])
    decreases n
  {
    if n > 0 {
      MapBounded(tables, events, n - 1);
      assert Next(tables[n - 1], events[n - 1], tables[n - 1 + 1]);
      EffectBounded(tables[n - 1], events[n - 1]);
    }
  }

  lemma EffectBounded(entries: Entries, e: Event)
    requires EventOk(e) && |entries| <= MAX_ENTRIES && forall k :: k in entries ==> InfoOk(entries[k])
    ensures |Effect(entries, e)| <= MAX_ENTRIES
    ensures forall k :: k in Effect(entries, e) ==> InfoOk(Effect(entries, e)[k])
  {
    match e
    case Set(_, hostVeth, nsVeth) => SizeAfterPut(entries, AddressOf(e), InfoOf(hostVeth, nsVeth));
    case Delete(podIPs) => SizeWithout(entries, KeysOf(podIPs));
    case Reset =>
  }

  lemma SizeWithout(entries: Entries, keys: seq<nat>)
    ensures |Without(entries, keys)| <= |entries|
  {
    var gone := set k | k in keys;
    SizeAfterRemove(entries, gone);
    assert Without(entries, keys) == entries - gone;
  }

  /** The latest entry stored and not deleted is the one in the map. */
  lemma LatestInMap(tables: seq<Entries>, events: seq<Event>, n: nat, a: nat, i: nat)
    requires IsHistory(tables, events) && n <= |events| && a < WORD && Latest(MarksOf(tables, events, a), n, i)
    ensures a in tables[n] && Wrote(events[i], tables[n][a])
  {
    MapIsLatest(tables, events, n, a);
    var j: nat :| Latest(MarksOf(tables, events, a), n, j) && Wrote(events[j], tables[n][a]);
    LatestUnique(MarksOf(tables, events, a), n, i, j);
  }

  /** A frame for an address whose entry was stored for these interfaces. */
  lemma RedirectedByEntry(entries: Entries, order: Endian, frame: seq<Byte>, a: nat, hostVeth: Veth, nsVeth: Veth)
    requires forall k :: k in entries ==> InfoOk(entries[k])
    requires |frame| >= 34
    requires a == frame[30] as int * 0x100_0000 + frame[31] as int * 0x1_0000 + frame[32] as int * 0x100
                  + frame[33] as int
    requires a in entries && |hostVeth.hardwareAddr| <= 8 && |nsVeth.hardwareAddr| <= 8
    requires entries[a] == InfoOf(hostVeth, nsVeth)
    ensures var (verdict, frame') := IngressOutcome(entries, if order == Big then 0x0800 else 0x0008, order, frame);
            |frame'| == |frame| && RedirectedTo(hostVeth, verdict, frame, frame')
  {
    FrameFor(entries, order, 0x08, 0x00, frame);
    EntryHolds(hostVeth, nsVeth);
    var frame' := IngressOutcome(entries, if order == Big then 0x0800 else 0x0008, order, frame).1;
    forall i | 0 <= i < 6 ensures frame'[i] == entries[a].lxcVethMac[i] {
      assert frame'[i] == frame'[..6][i] && entries[a].lxcVethMac[i] == entries[a].lxcVethMac[..6][i];
    }
  }

  /** Endpoint index agreement: after any history of plugin calls, an IPv4 frame (EtherType bytes 08 00)
      whose bytes 30 to 33 are the destination address a is, on a host of either byte order, redirected to
      the host interface of the latest entry stored for a and not deleted since; its destination MAC becomes
      that interface's, its source MAC the old destination MAC, and every other byte stays. Without such an
      entry the frame is left alone. */
  lemma Delivered(tables: seq<Entries>, events: seq<Event>, n: nat, order: Endian, frame: seq<Byte>, a: nat)
    requires IsHistory(tables, events) && n <= |events| && |frame| >= 34
    requires a == frame[30] as int * 0x100_0000 + frame[31] as int * 0x1_0000 + frame[32] as int * 0x100
                  + frame[33] as int
    ensures a < WORD && forall k :: k in tables[n] ==> InfoOk(tables[n][k])
    ensures var (verdict, frame') := IngressOutcome(tables[n], if order == Big then 0x0800 else 0x0008, order, frame);
            && |frame'| == |frame|
            && (forall i :: 12 <= i < |frame| ==> frame'[i] == frame[i])
            && (forall i: nat :: Latest(MarksOf(tables, events, a), n, i) ==>
                  events[i].Set? && RedirectedTo(events[i].hostVeth, verdict, frame, frame'))
            && ((forall i: nat :: !Latest(MarksOf(tables, events, a), n, i)) ==>
                  verdict == NodeLookup(a) && frame' == frame)
  {
    MapBounded(tables, events, n);
    WireOfBytes(frame[30..34]);
    MapIsLatest(tables, events, n, a);
    FrameFor(tables[n], order, 0x08, 0x00, frame);
    forall i: nat | Latest(MarksOf(tables, events, a), n, i)
      ensures events[i].Set?
      ensures var (verdict, frame') :=
                IngressOutcome(tables[n], if order == Big then 0x0800 else 0x0008, order, frame);
              |frame'| == |frame| && RedirectedTo(events[i].hostVeth, verdict, frame, frame')
    {
      LatestInMap(tables, events, n, a, i);
      RedirectedByEntry(tables[n], order, frame, a, events[i].hostVeth, events[i].nsVeth);
    }
  }

  /** The verdict and frame of a packet redirected to a host-side interface. */
  predicate RedirectedTo(hostVeth: Veth, verdict: Verdict, frame: seq<Byte>, frame': seq<Byte>)
    requires |frame'| == |frame| >= 12
  {
    && verdict.RedirectPeer? && (0 <= hostVeth.index < 0x1_0000_0000 ==> verdict == RedirectPeer(hostVeth.index))
    && (forall i :: 0 <= i < 6 ==> frame'[i] == if i < |hostVeth.hardwareAddr| then hostVeth.hardwareAddr[i] else 0)
    && frame'[6..12] == frame[..6]
  }
}
