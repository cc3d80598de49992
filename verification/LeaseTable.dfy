/** The atomic lease table: what each operation of the local plugin does to the table, all at once.
    The plugin's methods are proved against Apply, and the runs and interleavings are built on it. */
module LeaseTable {
  import opened AddressRing
  import opened LeaseStore
  import opened Results

  /** The plugin's operations, keyed by container ID. */
  datatype Op = Add(id: string, ifName: string) | Del(id: string) | Check(id: string)

  datatype Reply = Granted(ip: nat) | Done | Failed(error: IpamError)

  /** Where the next scan starts. */
  function Pointer(r: Ring, d: Data): nat {
    if d.last.Some? then d.last.value else r.gw
  }

  ghost function Apply(r: Ring, d: Data, op: Op): (res: (Data, Reply))
    requires Inv(r, d)
  {
    var held := LeaseOf(d, op.id);
    match op
    case Add(id, ifName) =>
      if held.Some? then (d, Granted(held.value))
      else
        (match r.FirstFree(d.ips.Keys, Pointer(r, d))
         case Some(ip) => (Data(d.ips[ip := ContainerNetInfo(id, ifName)], Some(ip)), Granted(ip))
         case None => (d, Failed(if d.last.None? then IPOverflow else NoAvailableIP)))
    case Del(_) =>
      (if held.Some? then Data(d.ips - {held.value}, d.last) else d, Done)
    case Check(_) =>
      (d, if held.Some? then Granted(held.value) else Failed(NotFound))
  }

  lemma HoldsIsLease(d: Data, ip: nat, id: string)
    requires OneLeasePerId(d) && Holds(d, ip, id)
    ensures LeaseOf(d, id) == Some(ip)
  {
  }

  /** Every operation keeps the table invariant, so every reachable table has it. The pointer once set
      stays set, and an operation leaves it empty only by changing nothing. */
  lemma ApplyKeepsInv(r: Ring, d: Data, op: Op)
    requires Inv(r, d)
    ensures Inv(r, Apply(r, d, op).0)
    ensures Apply(r, d, op).0.last.None? <==> d.last.None? && Apply(r, d, op).0 == d
  {
    var d' := Apply(r, d, op).0;
    forall x, y, id | Holds(d', x, id) && Holds(d', y, id) ensures x == y {
      if op.Add? && LeaseOf(d, op.id).None? && id == op.id {
        assert !Holds(d, x, id) && !Holds(d, y, id);
      } else {
        assert Holds(d, x, id) && Holds(d, y, id);
      }
    }
  }

  lemma EmptyInv(r: Ring)
    requires r.Wf()
    ensures Inv(r, EMPTY)
  {
  }

  /** The leases fill the ring exactly when there are N of them. */
  lemma FullIff(r: Ring, d: Data)
    requires Inv(r, d)
    ensures |d.ips| <= r.N()
    ensures r.Full(d.ips.Keys) <==> |d.ips| == r.N()
  {
    RingSize(r);
    var used := d.ips.Keys;
    assert used <= r.Addresses();
    SubsetSize(used, r.Addresses());
    assert |used| == |d.ips|;
    if r.Full(used) {
      assert used == r.Addresses();
    } else if |used| == r.N() {
      var b :| r.Has(b) && b !in used;
      SubsetSize(used + {b}, r.Addresses());
    }
  }

  lemma {:induction false} SubsetSize<T>(a: set<T>, b: set<T>)
    requires a <= b
    ensures |a| <= |b|
    decreases a
  {
    if a != {} {
      var x :| x in a;
      SubsetSize(a - {x}, b - {x});
    }
  }

  /** A container with a lease, whatever other containers did since it got it: ADD and CHECK answer the
      leased address and change nothing, DEL takes exactly that lease away. */
  lemma WithLease(r: Ring, d: Data, ip: nat, id: string, ifName: string)
    requires Inv(r, d) && Holds(d, ip, id)
    ensures Apply(r, d, Add(id, ifName)) == (d, Granted(ip))
    ensures Apply(r, d, Check(id)) == (d, Granted(ip))
    ensures Apply(r, d, Del(id)) == (Data(d.ips - {ip}, d.last), Done)
  {
    HoldsIsLease(d, ip, id);
  }

  /** A container without a lease: CHECK fails and DEL succeeds, and neither changes anything. */
  lemma WithoutLease(r: Ring, d: Data, id: string)
    requires Inv(r, d) && forall ip :: !Holds(d, ip, id)
    ensures Apply(r, d, Check(id)) == (d, Failed(NotFound))
    ensures Apply(r, d, Del(id)) == (d, Done)
  {
    assert LeaseOf(d, id).None?;
  }

  /** ADD of a container without a lease: it gets the first free address in cyclic order after the
      pointer, which becomes the pointer; nothing else of the table changes. It fails exactly when all N
      addresses are leased, and then changes nothing. */
  lemma AddExact(r: Ring, d: Data, id: string, ifName: string)
    requires Inv(r, d) && LeaseOf(d, id).None?
    ensures var (d', reply) := Apply(r, d, Add(id, ifName));
            && (reply.Failed? <==> |d.ips| == r.N())
            && (reply.Failed? ==> d' == d && reply.error == if r.N() == 0 then IPOverflow else NoAvailableIP)
            && (!reply.Failed? ==>
                  && reply.Granted? && r.IsFirstFree(d.ips.Keys, Pointer(r, d), reply.ip)
                  && d' == Data(d.ips[reply.ip := ContainerNetInfo(id, ifName)], Some(reply.ip))
                  && |d'.ips| == |d.ips| + 1)
  {
    FullIff(r, d);
    if d.last.Some? {
      assert r.Has(d.last.value) && r.N() > 0;
    }
    var (d', reply) := Apply(r, d, Add(id, ifName));
    if reply.Granted? {
      assert d'.ips.Keys == d.ips.Keys + {reply.ip};
    }
  }

  /** A repeated ADD returns the same address and a repeated DEL does nothing more. */
  lemma Repeats(r: Ring, d: Data, id: string, ifName: string, ifName': string)
    requires Inv(r, d)
    ensures var (d', reply) := Apply(r, d, Add(id, ifName));
            reply.Granted? ==> Inv(r, d') && Apply(r, d', Add(id, ifName')) == (d', reply)
                               && Apply(r, d', Check(id)) == (d', reply)
    ensures var d' := Apply(r, d, Del(id)).0;
            Inv(r, d') && LeaseOf(d', id).None? && Apply(r, d', Del(id)) == (d', Done)
  {
    ApplyKeepsInv(r, d, Add(id, ifName));
    ApplyKeepsInv(r, d, Del(id));
    var (d', reply) := Apply(r, d, Add(id, ifName));
    if reply.Granted? {
      HoldsIsLease(d', reply.ip, id);
    }
    var e := Apply(r, d, Del(id)).0;
    forall ip: nat | Holds(d, ip, id) ensures LeaseOf(d, id) == Some(ip) {
      HoldsIsLease(d, ip, id);
    }
    assert forall ip: nat :: Holds(e, ip, id) ==> Holds(d, ip, id);
  }

  /** No operation touches the lease of any other container. */
  lemma OthersUntouched(r: Ring, d: Data, op: Op, ip: nat, other: string)
    requires Inv(r, d) && other != op.id
    ensures Holds(Apply(r, d, op).0, ip, other) <==> Holds(d, ip, other)
    ensures Inv(r, Apply(r, d, op).0) && LeaseOf(Apply(r, d, op).0, other) == LeaseOf(d, other)
  {
    ApplyKeepsInv(r, d, op);
    var d' := Apply(r, d, op).0;
    forall x ensures Holds(d', x, other) <==> Holds(d, x, other) {
    }
    if LeaseOf(d, other).Some? {
      HoldsIsLease(d', LeaseOf(d, other).value, other);
    }
  }

  /** DEL after a fresh ADD restores the leases but not the pointer. */
  lemma DelUndoesAdd(r: Ring, d: Data, id: string, ifName: string)
    requires Inv(r, d) && LeaseOf(d, id).None?
    requires Apply(r, d, Add(id, ifName)).1.Granted?
    ensures var (d1, reply) := Apply(r, d, Add(id, ifName));
            Inv(r, d1) && Apply(r, d1, Del(id)).0 == Data(d.ips, Some(reply.ip))
  {
    ApplyKeepsInv(r, d, Add(id, ifName));
    var (d1, reply) := Apply(r, d, Add(id, ifName));
    HoldsIsLease(d1, reply.ip, id);
    assert d1.ips - {reply.ip} == d.ips;
  }
}
