/** The flat key space of the etcd-mode allocator (utils/conf_helper.go). The host name is the one
    os.Hostname reports on the machine that runs the plugin. */
module EtcdKeys {
  import opened Text

  const PREFIX: string := "mycni/ipam/"

  function GetHostPath(host: string): string {
    PREFIX + host
  }

  function GetIPPoolPath(): string {
    PREFIX + "pool"
  }

  function GetHostIPPoolPath(host: string): string {
    GetHostPath(host) + "/pool"
  }

  function GetHostGWPath(host: string): string {
    GetHostPath(host) + "/gateway"
  }

  function GetNetDevicePath(host: string, id: string): string {
    GetHostPath(host) + "/" + id
  }

  /** The device id of an interface of a container. */
  function DeviceId(containerID: string, ifName: string): string {
    containerID + "-" + ifName
  }

  /** What a key stands for. */
  datatype Key =
    | Pool
    | Host(host: string)
    | HostPool(host: string)
    | HostGateway(host: string)
    | Device(host: string, id: string)
  {

    function Path(): string {
      match this
      case Pool => GetIPPoolPath()
      case Host(h) => GetHostPath(h)
      case HostPool(h) => GetHostIPPoolPath(h)
      case HostGateway(h) => GetHostGWPath(h)
      case Device(h, id) => GetNetDevicePath(h, id)
    }

    /** Host names contain no slash and are not "pool"; device ids contain a dash. */
    predicate Wf() {
      match this
      case Pool => true
      case Device(h, id) => HostName(h) && '-' in id
      case _ => HostName(this.host)
    }

    /** The part of the path after the prefix: a head, and for keys below a host a rest. */
    function Head(): string {
      if Pool? then "pool" else host
    }

    predicate Nested() {
      HostPool? || HostGateway? || Device?
    }

    function Rest(): string
      requires Nested()
    {
      if HostPool? then "pool" else if HostGateway? then "gateway" else id
    }
  }

  predicate HostName(h: string) {
    '/' !in h && h != "pool"
  }

  lemma PathAfterPrefix(k: Key)
    ensures k.Path()[|PREFIX|..] == if k.Nested() then k.Head() + ['/'] + k.Rest() else k.Head()
  {
    var rest := if k.Nested() then k.Head() + ['/'] + k.Rest() else k.Head();
    assert k.Path() == PREFIX + rest;
  }

  lemma PathSplits(k: Key)
    requires k.Wf()
    ensures Split(k.Path()[|PREFIX|..], '/') == [k.Head()] + (if k.Nested() then Split(k.Rest(), '/') else [])
  {
    PathAfterPrefix(k);
    if k.Nested() {
      SplitFirst(k.Head(), '/', k.Rest());
    } else {
      SplitPlain(k.Head(), '/');
    }
  }

  /** Key-space separation: no two different keys share a path. */
  lemma PathInjective(a: Key, b: Key)
    requires a.Wf() && b.Wf() && a.Path() == b.Path()
    ensures a == b
  {
    PathSplits(a);
    PathSplits(b);
    var pieces := Split(a.Path()[|PREFIX|..], '/');
    assert a.Head() == pieces[0] && b.Head() == pieces[0];
    if a.Nested() {
      assert pieces[1..] == Split(a.Rest(), '/');
      assert b.Nested() && pieces[1..] == Split(b.Rest(), '/');
      JoinSplit(a.Rest(), '/');
      JoinSplit(b.Rest(), '/');
      assert a.Rest() == b.Rest();
    } else {
      assert |pieces| == 1 && !b.Nested();
    }
  }

  /** The key behind a path, spelled out: the cluster pool, a host, and below a host its pool, its gateway
      and its devices. */
  lemma KeyOfPath(k: Key, h: string, id: string)
    requires k.Wf() && HostName(h) && '-' in id
    ensures k.Path() == "mycni/ipam/pool" <==> k == Pool
    ensures k.Path() == "mycni/ipam/" + h <==> k == Host(h)
    ensures k.Path() == "mycni/ipam/" + h + "/pool" <==> k == HostPool(h)
    ensures k.Path() == "mycni/ipam/" + h + "/gateway" <==> k == HostGateway(h)
    ensures k.Path() == "mycni/ipam/" + h + "/" + id <==> k == Device(h, id)
  {
    SamePath(k, Pool);
    SamePath(k, Host(h));
    SamePath(k, HostPool(h));
    SamePath(k, HostGateway(h));
    SamePath(k, Device(h, id));
    assert PREFIX + "pool" == "mycni/ipam/pool";
  }

  /** Every device id of a container starts with the container ID and a dash, and the interface follows. */
  lemma DeviceIdStarts(containerID: string, ifName: string)
    ensures containerID + "-" <= DeviceId(containerID, ifName)
    ensures DeviceId(containerID, ifName)[|containerID| + 1..] == ifName
  {
  }

  /** Device ids tell interfaces of containers apart when container IDs contain no dash. */
  lemma DeviceIdInjective(c1: string, if1: string, c2: string, if2: string)
    requires '-' !in c1 && '-' !in c2 && DeviceId(c1, if1) == DeviceId(c2, if2)
    ensures c1 == c2 && if1 == if2
  {
    SplitFirst(c1, '-', if1);
    SplitFirst(c2, '-', if2);
    var pieces := Split(DeviceId(c1, if1), '-');
    assert pieces[1..] == Split(if1, '-') == Split(if2, '-');
    assert pieces[0] == c1 == c2;
    JoinSplit(if1, '-');
    JoinSplit(if2, '-');
  }

  /** Exactly when a given container's ids are its own: another container shares one of them if and
      only if the container ID has a dash, or the interface name has one. */
  lemma DeviceIdSharedIff(c: string, ifName: string)
    ensures (exists c', if' :: c' != c && DeviceId(c', if') == DeviceId(c, ifName)) <==> '-' in c || '-' in ifName
  {
    var id := DeviceId(c, ifName);
    if '-' in c {
      var k :| 0 <= k < |c| && c[k] == '-';
      var c', if' := c[..k], c[k + 1..] + "-" + ifName;
      assert c == c[..k] + "-" + c[k + 1..];
      assert DeviceId(c', if') == id && |c'| < |c|;
    } else if '-' in ifName {
      var k :| 0 <= k < |ifName| && ifName[k] == '-';
      var c', if' := c + "-" + ifName[..k], ifName[k + 1..];
      assert ifName == ifName[..k] + "-" + ifName[k + 1..];
      assert DeviceId(c', if') == id && |c'| > |c|;
    } else {
      forall c', if' | DeviceId(c', if') == id ensures c' == c {
        if '-' in c' {
          SingleDash(c', if', c, ifName);
        } else {
          DeviceIdInjective(c', if', c, ifName);
        }
      }
    }
  }

  /** A text with a single dash splits at it in one way only. */
  lemma SingleDash(c': string, if': string, c: string, ifName: string)
    requires DeviceId(c', if') == DeviceId(c, ifName) && '-' !in c && '-' !in ifName
    ensures '-' !in c'
  {
    var id := DeviceId(c, ifName);
    assert forall i :: 0 <= i < |id| && id[i] == '-' ==> i == |c|;
    forall k | 0 <= k < |c'| ensures c'[k] != '-' {
      assert id[k] == c'[k] && id[|c'|] == '-';
    }
  }

  // ---- reading and writing by key ----

  type Kv = map<string, string>

  /** A missing key reads as the empty text. */
  function Get(kv: Kv, path: string): string {
    if path in kv then kv[path] else ""
  }

  function Read(kv: Kv, k: Key): string {
    Get(kv, k.Path())
  }

  function Write(kv: Kv, k: Key, value: string): Kv {
    kv[k.Path() := value]
  }

  function Remove(kv: Kv, k: Key): Kv {
    kv - {k.Path()}
  }

  /** The store as the values of its well-formed keys. */
  type View = imap<Key, string>

  ghost function ViewOf(kv: Kv): (v: View)
    ensures forall k: Key :: k.Wf() <==> k in v
    ensures forall k: Key :: k.Wf() ==> v[k] == Read(kv, k)
  {
    imap k: Key | k.Wf() :: Read(kv, k)
  }

  ghost function At(v: View, k: Key): string {
    if k in v then v[k] else ""
  }

  lemma SamePath(a: Key, b: Key)
    requires a.Wf() && b.Wf()
    ensures a.Path() == b.Path() <==> a == b
  {
    if a.Path() == b.Path() {
      PathInjective(a, b);
    }
  }

  /** Writing one key leaves every other key as it was. */
  lemma WriteView(kv: Kv, k: Key, value: string)
    requires k.Wf()
    ensures ViewOf(Write(kv, k, value)) == ViewOf(kv)[k := value]
  {
    forall other: Key | other.Wf()
      ensures Read(Write(kv, k, value), other) == if other == k then value else Read(kv, other)
    {
      SamePath(other, k);
    }
  }

  lemma RemoveView(kv: Kv, k: Key)
    requires k.Wf()
    ensures ViewOf(Remove(kv, k)) == ViewOf(kv)[k := ""]
  {
    forall other: Key | other.Wf()
      ensures Read(Remove(kv, k), other) == if other == k then "" else Read(kv, other)
    {
      SamePath(other, k);
    }
  }
}
