/** The lease table of the local allocator, the file it is kept in, and the in-memory store of one
    plugin process (plugins/ipam/local/store/store.go). */
module LeaseStore {
  import opened AddressRing
  import opened Results

  datatype ContainerNetInfo = ContainerNetInfo(id: string, ifName: string)

  /** The table that is marshalled to the file. */
  datatype Data = Data(ips: map<nat, ContainerNetInfo>, last: Option<nat>)

  const EMPTY: Data := Data(map[], None)

  /** The shared file: missing, cut short by a create or an overwrite in progress, or a document. */
  datatype FileState = Absent | Partial | Content(data: Data)

  /** Panicked is not an error value but a crash of the process. */
  datatype IpamError = IPOverflow | NoAvailableIP | NotFound | BadJson | Panicked

  ghost predicate Holds(d: Data, ip: nat, id: string) {
    ip in d.ips && d.ips[ip].id == id
  }

  ghost predicate OneLeasePerId(d: Data) {
    forall x, y, id :: Holds(d, x, id) && Holds(d, y, id) ==> x == y
  }

  /** The address leased to id. */
  ghost function LeaseOf(d: Data, id: string): (r: Option<nat>)
    ensures r.Some? ==> Holds(d, r.value, id)
    ensures r.None? ==> forall ip :: !Holds(d, ip, id)
  {
    if ip :| Holds(d, ip, id) then Some(ip) else None
  }

  /** What every reachable table satisfies. */
  ghost predicate Inv(r: Ring, d: Data) {
    && r.Wf()
    && (forall ip :: ip in d.ips ==> r.Has(ip))
    && OneLeasePerId(d)
    && (d.last.Some? ==> r.Has(d.last.value))
    && (d.last.None? ==> d.ips == map[])
  }

  class LeaseFile {
    var content: FileState

    constructor ()
      ensures content == Absent
    {
      content := Absent;
    }
  }

  class Store {
    const file: LeaseFile
    var data: Data

    constructor (file: LeaseFile)
      ensures this.file == file && data == EMPTY
    {
      this.file := file;
      data := EMPTY;
    }

    /** Replaces the in-memory table by the file's; a missing file is created with an empty table. */
    method LoadData() returns (r: Result<(), IpamError>)
      modifies this`data, file
      ensures match old(file.content)
              case Absent => r.Ok? && data == EMPTY && file.content == Content(EMPTY)
              case Partial => r == Err(BadJson) && data == old(data) && file.content == Partial
              case Content(d) => r.Ok? && data == d && file.content == Content(d)
    {
      match file.content {
        case Absent =>
          file.content := Partial;
          file.content := Content(EMPTY);
          data := EMPTY;
        case Partial =>
          return Err(BadJson);
        case Content(d) =>
          data := d;
      }
      r := Ok(());
    }

    function Last(): Option<nat>
      reads this
    {
      data.last
    }

    /** Searches the table in an arbitrary order. */
    method GetIPByID(id: string) returns (r: Option<nat>)
      ensures r.Some? ==> Holds(data, r.value, id)
      ensures r.None? ==> forall ip :: !Holds(data, ip, id)
      ensures OneLeasePerId(data) ==> r == LeaseOf(data, id)
    {
      var rest := data.ips.Keys;
      while rest != {}
        invariant rest <= data.ips.Keys
        invariant forall ip :: ip in data.ips.Keys - rest ==> data.ips[ip].id != id
        decreases |rest|
      {
        var ip :| ip in rest;
        if data.ips[ip].id == id {
          assert Holds(data, ip, id);
          return Some(ip);
        }
        rest := rest - {ip};
      }
      r := None;
    }

    method Add(ip: nat, id: string, ifName: string)
      modifies this`data, file
      ensures data == Data(old(data).ips[ip := ContainerNetInfo(id, ifName)], Some(ip))
      ensures file.content == Content(data)
    {
      data := Data(data.ips[ip := ContainerNetInfo(id, ifName)], data.last);
      data := Data(data.ips, Some(ip));
      Write();
    }

    /** Removes the first lease of id met in an arbitrary order; the pointer stays. */
    method Del(id: string)
      modifies this`data, file
      ensures (forall ip :: !Holds(old(data), ip, id)) ==> data == old(data) && file.content == old(file.content)
      ensures (exists ip :: Holds(old(data), ip, id)) ==>
                file.content == Content(data)
                && exists ip :: Holds(old(data), ip, id) && data == Data(old(data).ips - {ip}, old(data).last)
      ensures OneLeasePerId(old(data)) && LeaseOf(old(data), id).Some? ==>
                data == Data(old(data).ips - {LeaseOf(old(data), id).value}, old(data).last)
    {
      var rest := data.ips.Keys;
      while rest != {}
        invariant rest <= data.ips.Keys
        invariant forall ip :: ip in data.ips.Keys - rest ==> data.ips[ip].id != id
        decreases |rest|
      {
        var ip :| ip in rest;
        if data.ips[ip].id == id {
          assert Holds(old(data), ip, id);
          data := Data(data.ips - {ip}, data.last);
          Write();
          return;
        }
        rest := rest - {ip};
      }
    }

    predicate Contain(ip: nat)
      reads this
    {
      ip in data.ips
    }

    /** Overwrites the file: it is cut to nothing first. */
    method Write()
      modifies file
      ensures file.content == Content(data)
    {
      file.content := Partial;
      file.content := Content(data);
    }
  }
}
