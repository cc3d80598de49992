/** The endpoint map shared by the vxlan plugin and the datapath (bpfmap/main.go), and the plugin code
    that fills and clears it (plugins/main/vxlan/main.go). */
module EndpointMap {
  import opened Bits
  import opened Ipv4
  import opened Results

  type Byte = b: int | 0 <= b < 256 witness 0

  const MAX_ENTRIES: nat := 32
  const ETH_ALEN: nat := 6

  datatype EndpointMapInfo = EndpointMapInfo(
    lxcIfIndex: nat, podIfIndex: nat,
    lxcVethMac: seq<Byte>, podVethMac: seq<Byte>)

  /** MAC fields are eight bytes wide. */
  predicate InfoOk(info: EndpointMapInfo) {
    |info.lxcVethMac| == 8 && |info.podVethMac| == 8
  }

  type Entries = map<nat, EndpointMapInfo>

  predicate Room(entries: Entries, key: nat) {
    key in entries || |entries| < MAX_ENTRIES
  }

  /** A put: a full map takes no new key. */
  function Put(entries: Entries, key: nat, value: EndpointMapInfo): Entries {
    if Room(entries, key) then entries[key := value] else entries
  }

  /** The kernel's pinned hash map of bounded size. */
  class LxcMap {
    var entries: Entries

    constructor ()
      ensures entries == map[]
    {
      entries := map[];
    }

    ghost predicate Valid()
      reads this
    {
      |entries| <= MAX_ENTRIES && forall k :: k in entries ==> InfoOk(entries[k])
    }

    method SetLxcMap(key: nat, value: EndpointMapInfo) returns (ok: bool)
      requires Valid() && InfoOk(value)
      modifies this
      ensures Valid()
      ensures ok <==> key in old(entries) || |old(entries)| < 32
      ensures entries == Put(old(entries), key, value)
    {
      ok := key in entries || |entries| < MAX_ENTRIES;
      if ok {
        SizeAfterPut(entries, key, value);
        entries := entries[key := value];
      }
    }

    method DelKeyLxcMap(key: nat) returns (ok: bool)
      requires Valid()
      modifies this
      ensures Valid()
      ensures ok <==> key in old(entries)
      ensures entries == old(entries) - {key}
    {
      ok := key in entries;
      SizeAfterRemove(entries, {key});
      entries := entries - {key};
    }

    method GetKeyValueFromLxcMap(key: nat) returns (res: Option<EndpointMapInfo>)
      ensures res == if key in entries then Some(entries[key]) else None
    {
      res := if key in entries then Some(entries[key]) else None;
    }

    /** Deletes keys one after another and stops at the first that is missing. */
    method BatchDelKeyLxcMap(keys: seq<nat>) returns (count: nat, ok: bool)
      requires Valid()
      modifies this
      ensures Valid()
      ensures count <= |keys| && entries == Without(old(entries), keys[..count])
      ensures ok <==> count == |keys|
      ensures !ok ==> keys[count] !in entries
      ensures AllPresentOnce(old(entries), keys) ==> ok
    {
      count := 0;
      assert Without(entries, keys[..0]) == entries;
      while count < |keys|
        invariant count <= |keys| && Valid()
        invariant entries == Without(old(entries), keys[..count])
      {
        WithoutOneMore(old(entries), keys, count);
        var deleted := DelKeyLxcMap(keys[count]);
        if !deleted {
          return count, false;
        }
        count := count + 1;
      }
      ok := true;
    }

    /** Collects all keys, in the map's own order, then deletes them: the map is empty afterwards. */
    method ResetLxcMap() returns (count: nat, ok: bool)
      requires Valid()
      modifies this
      ensures Valid() && entries == map[] && ok && count == |old(entries)|
    {
      var keys: seq<nat> := [];
      var rest := entries.Keys;
      while rest != {}
        invariant rest <= entries.Keys && entries == old(entries)
        invariant forall k :: k in entries.Keys - rest <==> k in keys
        invariant forall i, j :: 0 <= i < j < |keys| ==> keys[i] != keys[j]
        invariant |keys| + |rest| == |entries.Keys|
        decreases |rest|
      {
        var key :| key in rest;
        assert key !in keys;
        rest := rest - {key};
        keys := keys + [key];
      }
      assert forall i :: 0 <= i < |keys| ==> keys[i] in keys;
      assert AllPresentOnce(entries, keys);
      count, ok := BatchDelKeyLxcMap(keys);
      assert keys[..count] == keys;
    }
  }

  /** The map without the listed keys. */
  function Without(m: Entries, keys: seq<nat>): Entries {
    map k | k in m && k !in keys :: m[k]
  }

  predicate AllPresentOnce(m: Entries, keys: seq<nat>) {
    && (forall i :: 0 <= i < |keys| ==> keys[i] in m)
    && (forall i, j :: 0 <= i < j < |keys| ==> keys[i] != keys[j])
  }

  lemma WithoutOneMore(m: Entries, keys: seq<nat>, n: nat)
    requires n < |keys|
    ensures Without(m, keys[..n + 1]) == Without(m, keys[..n]) - {keys[n]}
    ensures AllPresentOnce(m, keys) ==> keys[n] in Without(m, keys[..n])
  {
    assert keys[..n + 1] == keys[..n] + [keys[n]];
  }

  lemma SizeAfterPut(m: Entries, key: nat, value: EndpointMapInfo)
    ensures |m[key := value]| == if key in m then |m| else |m| + 1
  {
    assert m[key := value].Keys == m.Keys + {key};
    assert |m[key := value].Keys| == if key in m then |m.Keys| else |m.Keys| + 1;
  }

  lemma SizeAfterRemove(m: Entries, keys: set<nat>)
    ensures |m - keys| <= |m|
  {
    assert (m - keys).Keys == m.Keys - keys;
    assert m.Keys == (m.Keys - keys) + (m.Keys * keys);
    assert |(m - keys).Keys| <= |m.Keys|;
  }

  // ---- filling the map ----

  /** What stuff8Byte makes of a byte string; a string of more than eight bytes makes it panic. */
  function Stuffed(b: seq<Byte>): (r: Option<seq<Byte>>)
    ensures r.Some? ==> |r.value| == 8
  {
    if |b| > 8 then None else Some(b + seq(8 - |b|, _ => 0))
  }

  /** The slice keeps nine bytes of a longer string, one more than the array has room for. */
  method Stuff8Byte(b: seq<Byte>) returns (r: Option<seq<Byte>>)
    ensures r == Stuffed(b)
    ensures r.Some? <==> |b| <= 8
    ensures r.Some? ==> b <= r.value && forall i :: |b| <= i < 8 ==> r.value[i] == 0
  {
    var res := new Byte[8](_ => 0);
    var src := if |b| > 8 then b[0..9] else b;
    var index := 0;
    while index < |src|
      invariant 0 <= index <= |src| && index <= 8
      invariant res[..index] == src[..index]
      invariant forall i :: index <= i < 8 ==> res[i] == 0
    {
      if index >= res.Length {
        return None;
      }
      res[index] := src[index];
      index := index + 1;
    }
    assert src == b && res[..] == src + seq(8 - |src|, _ => 0);
    r := Some(res[..]);
  }

  datatype Veth = Veth(index: int, hardwareAddr: seq<Byte>)

  datatype SetOutcome = BadCidr | Panic | MapFull | Stored

  /** The entry for a pod: its host end's index and MAC, and its own. */
  function InfoOf(hostVeth: Veth, nsVeth: Veth): (info: EndpointMapInfo)
    requires |hostVeth.hardwareAddr| <= 8 && |nsVeth.hardwareAddr| <= 8
    ensures InfoOk(info)
  {
    EndpointMapInfo(ToUint32(hostVeth.index), ToUint32(nsVeth.index),
                    Stuffed(hostVeth.hardwareAddr).value, Stuffed(nsVeth.hardwareAddr).value)
  }

  /** What the entry holds: each end's own index, and each end's own hardware address with zeros after it. */
  lemma EntryHolds(hostVeth: Veth, nsVeth: Veth)
    requires |hostVeth.hardwareAddr| <= 8 && |nsVeth.hardwareAddr| <= 8
    ensures EntryOf(InfoOf(hostVeth, nsVeth), hostVeth, nsVeth)
  {
  }

  predicate EntryOf(info: EndpointMapInfo, hostVeth: Veth, nsVeth: Veth) {
    && (0 <= hostVeth.index < 0x1_0000_0000 ==> info.lxcIfIndex == hostVeth.index)
    && (0 <= nsVeth.index < 0x1_0000_0000 ==> info.podIfIndex == nsVeth.index)
    && Padded(hostVeth.hardwareAddr, info.lxcVethMac) && Padded(nsVeth.hardwareAddr, info.podVethMac)
  }

  /** The pod's entry is under its key, and every other key is as before. */
  predicate StoredAt(before: Entries, key: nat, hostVeth: Veth, nsVeth: Veth, after: Entries) {
    key in after && EntryOf(after[key], hostVeth, nsVeth) && after - {key} == before - {key}
  }

  lemma PutStores(entries: Entries, key: nat, hostVeth: Veth, nsVeth: Veth)
    requires |hostVeth.hardwareAddr| <= 8 && |nsVeth.hardwareAddr| <= 8 && Room(entries, key)
    ensures StoredAt(entries, key, hostVeth, nsVeth, Put(entries, key, InfoOf(hostVeth, nsVeth)))
  {
    EntryHolds(hostVeth, nsVeth);
  }

  /** Eight bytes: those of b, then zeros. */
  predicate Padded(b: seq<Byte>, field: seq<Byte>) {
    |field| == 8 && b <= field && forall i :: |b| <= i < 8 ==> field[i] == 0
  }

  /** The entry is stored under the pod's address as a number. */
  method SetVethPairInfo2LxcMap(podIP: string, hostVeth: Veth, nsVeth: Veth, m: LxcMap) returns (r: SetOutcome)
    requires m.Valid()
    modifies m
    ensures m.Valid()
    ensures r == BadCidr <==> ParseCIDR(podIP).None?
    ensures r == Panic <==> ParseCIDR(podIP).Some? && (|hostVeth.hardwareAddr| > 8 || |nsVeth.hardwareAddr| > 8)
    ensures r == MapFull || r == Stored ==> (r == Stored <==> Room(old(m.entries), ParseCIDR(podIP).value.ip))
    ensures m.entries == if r == BadCidr || r == Panic then old(m.entries)
                         else Put(old(m.entries), ParseCIDR(podIP).value.ip, InfoOf(hostVeth, nsVeth))
    ensures r == Stored ==> StoredAt(old(m.entries), ParseCIDR(podIP).value.ip, hostVeth, nsVeth, m.entries)
  {
    var parsed := ParseCIDR(podIP);
    if parsed.None? {
      return BadCidr;
    }
    var text := Dotted(parsed.value.ip);
    var key := InetIpToUInt32(text);
    DottedQuad(parsed.value.ip);
    var hostVethMac := Stuff8Byte(hostVeth.hardwareAddr);
    var nsVethMac := Stuff8Byte(nsVeth.hardwareAddr);
    if hostVethMac.None? || nsVethMac.None? {
      return Panic;
    }
    var info := EndpointMapInfo(ToUint32(hostVeth.index), ToUint32(nsVeth.index), hostVethMac.value, nsVethMac.value);
    var ok := m.SetLxcMap(key.value, info);
    if ok {
      PutStores(old(m.entries), parsed.value.ip, hostVeth, nsVeth);
    }
    r := if ok then Stored else MapFull;
  }

  predicate AllParse(podIPs: seq<string>) {
    forall i :: 0 <= i < |podIPs| ==> InetValue(podIPs[i]).Some?
  }

  function KeysOf(podIPs: seq<string>): (keys: seq<nat>)
    requires AllParse(podIPs)
    ensures |keys| == |podIPs| && forall i :: 0 <= i < |keys| ==> keys[i] == InetValue(podIPs[i]).value
  {
    seq(|podIPs|, i requires 0 <= i < |podIPs| => InetValue(podIPs[i]).value)
  }

  /** The deletion loop of the plugin's DEL, over the address texts of the deleted link. A missing key is
      no error; a text with fewer than four dotted pieces panics, after the texts before it. */
  method DelAddresses(podIPs: seq<string>, m: LxcMap) returns (done: nat)
    requires m.Valid()
    modifies m
    ensures m.Valid()
    ensures done <= |podIPs| && (done < |podIPs| ==> InetValue(podIPs[done]).None?)
    ensures AllParse(podIPs[..done]) && m.entries == Without(old(m.entries), KeysOf(podIPs[..done]))
  {
    done := 0;
    assert Without(m.entries, KeysOf(podIPs[..0])) == m.entries;
    while done < |podIPs|
      invariant 0 <= done <= |podIPs| && m.Valid()
      invariant AllParse(podIPs[..done]) && m.entries == Without(old(m.entries), KeysOf(podIPs[..done]))
    {
      var key := InetIpToUInt32(podIPs[done]);
      if key.None? {
        return;
      }
      KeysOfOneMore(podIPs, done, key.value);
      WithoutAppend(old(m.entries), KeysOf(podIPs[..done]), key.value);
      var ok := m.DelKeyLxcMap(key.value);
      done := done + 1;
    }
  }

  lemma KeysOfOneMore(podIPs: seq<string>, n: nat, key: nat)
    requires n < |podIPs| && AllParse(podIPs[..n]) && InetValue(podIPs[n]) == Some(key)
    ensures AllParse(podIPs[..n + 1]) && KeysOf(podIPs[..n + 1]) == KeysOf(podIPs[..n]) + [key]
  {
    assert podIPs[..n + 1] == podIPs[..n] + [podIPs[n]];
  }

  lemma WithoutAppend(m: Entries, keys: seq<nat>, key: nat)
    ensures Without(m, keys + [key]) == Without(m, keys) - {key}
  {
  }

  /** Among canonical address texts, an address's key is listed exactly if its text is. */
  lemma KeyListed(podIPs: seq<string>, a: nat)
    requires a < WORD && forall i :: 0 <= i < |podIPs| ==> IsQuad(podIPs[i])
    ensures AllParse(podIPs)
    ensures a in KeysOf(podIPs) <==> Dotted(a) in podIPs
  {
    forall i | 0 <= i < |podIPs| ensures InetValue(podIPs[i]) == Some(QuadNumber(podIPs[i])) {
      InetValueOfQuad(podIPs[i]);
    }
    DottedQuad(a);
    if a in KeysOf(podIPs) {
      var i :| 0 <= i < |podIPs| && KeysOf(podIPs)[i] == a;
      QuadDotted(podIPs[i]);
    }
    if Dotted(a) in podIPs {
      var i :| 0 <= i < |podIPs| && podIPs[i] == Dotted(a);
      assert KeysOf(podIPs)[i] == a;
    }
  }
}
