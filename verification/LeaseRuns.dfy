/** Whole runs of the local allocator: how long a released address stays unused, and who may hold an
    address when. A run is a sequence of operations with the tables between them. */
module LeaseRuns {
  import opened AddressRing
  import opened Bits
  import opened LeaseStore
  import opened LeaseTable
  import opened Results

  ghost predicate Next(r: Ring, d: Data, op: Op, d': Data) {
    Inv(r, d) && Inv(r, d') && d' == Apply(r, d, op).0
  }

  /** states[k] is the table before operation k. */
  ghost predicate IsRun(r: Ring, states: seq<Data>, ops: seq<Op>) {
    && |states| == |ops| + 1
    && Inv(r, states[0])
    && forall k :: 0 <= k < |ops| ==> Next(r, states[k], ops[k], states[k + 1])
  }

  /** Every sequence of operations has exactly one run from a given reachable table. */
  lemma {:induction false} RunExists(r: Ring, d: Data, ops: seq<Op>) returns (states: seq<Data>)
    requires Inv(r, d)
    ensures IsRun(r, states, ops) && states[0] == d
    ensures forall other :: IsRun(r, other, ops) && other[0] == d ==> other == states
  {
    if ops == [] {
      states := [d];
    } else {
      var n := |ops| - 1;
      var prefix := RunExists(r, d, ops[..n]);
      if n > 0 {
        assert Next(r, prefix[n - 1], ops[..n][n - 1], prefix[n - 1 + 1]);
      }
      ApplyKeepsInv(r, prefix[n], ops[n]);
      states := prefix + [Apply(r, prefix[n], ops[n]).0];
      forall other | IsRun(r, other, ops) && other[0] == d ensures other == states {
        var front := other[..n + 1];
        assert IsRun(r, front, ops[..n]);
        assert Next(r, other[n], ops[n], other[n + 1]);
        assert other == front + [other[n + 1]];
      }
    }
  }

  /** The address an operation newly leases, if it does; a repeated ADD leases nothing new. */
  ghost function GrantOf(r: Ring, d: Data, op: Op): Option<nat>
    requires Inv(r, d)
  {
    var reply := Apply(r, d, op).1;
    if op.Add? && LeaseOf(d, op.id).None? && reply.Granted? then Some(reply.ip) else None
  }

  /** The address granted last is granted next only when every other one is leased; so an address that
      was granted and released at once is not handed out again while any other is free. */
  lemma LastComesLast(r: Ring, d: Data, op: Op)
    requires Inv(r, d) && d.last.Some? && GrantOf(r, d, op) == d.last
    ensures forall b :: r.Has(b) && b != d.last.value ==> b in d.ips
  {
  }

  ghost function GrantsOf(r: Ring, states: seq<Data>, ops: seq<Op>): (gs: seq<Option<nat>>)
    requires IsRun(r, states, ops)
    ensures |gs| == |ops|
    ensures forall k :: 0 <= k < |gs| ==>
              Next(r, states[k], ops[k], states[k + 1]) && gs[k] == GrantOf(r, states[k], ops[k])
  {
    seq(|ops|, k requires 0 <= k < |ops| =>
      assert Next(r, states[k], ops[k], states[k + 1]);
      GrantOf(r, states[k], ops[k]))
  }

  ghost predicate GrantedWithin(gs: seq<Option<nat>>, i: nat, j: nat, b: nat)
    requires j <= |gs|
  {
    exists k :: i <= k < j && gs[k] == Some(b)
  }

  /** The number of grants from operation i up to but not including operation j. */
  function Grants(gs: seq<Option<nat>>, i: nat, j: nat): nat
    requires j <= |gs|
    decreases j
  {
    if j <= i then 0 else Grants(gs, i, j - 1) + (if gs[j - 1].Some? then 1 else 0)
  }

  // ---- the pointer of a run ----

  /** What one operation does to the leased addresses and the pointer. */
  ghost predicate PointerStep(r: Ring, d: Data, g: Option<nat>, d': Data)
    requires r.Wf()
  {
    && r.Start(Pointer(r, d))
    && (g.None? ==> d'.last == d.last && d'.ips.Keys <= d.ips.Keys)
    && (g.Some? ==> d'.last == g && d'.ips.Keys == d.ips.Keys + {g.value}
                    && r.IsFirstFree(d.ips.Keys, Pointer(r, d), g.value))
  }

  lemma ApplyIsPointerStep(r: Ring, d: Data, op: Op)
    requires Inv(r, d)
    ensures PointerStep(r, d, GrantOf(r, d, op), Apply(r, d, op).0)
  {
    if GrantOf(r, d, op).Some? {
      AddExact(r, d, op.id, op.ifName);
    }
  }

  ghost predicate PointerRun(r: Ring, states: seq<Data>, gs: seq<Option<nat>>) {
    r.Wf() && |states| == |gs| + 1 && forall k :: 0 <= k < |gs| ==> PointerStep(r, states[k], gs[k], states[k + 1])
  }

  lemma RunIsPointerRun(r: Ring, states: seq<Data>, ops: seq<Op>)
    requires IsRun(r, states, ops)
    ensures PointerRun(r, states, GrantsOf(r, states, ops))
  {
    var gs := GrantsOf(r, states, ops);
    forall k | 0 <= k < |gs| ensures PointerStep(r, states[k], gs[k], states[k + 1]) {
      assert Next(r, states[k], ops[k], states[k + 1]);
      ApplyIsPointerStep(r, states[k], ops[k]);
    }
  }

  /** From an empty file, the pointer is empty exactly as long as nothing has been granted. */
  lemma {:induction false} PointerEmptyUntilFirstGrant(r: Ring, states: seq<Data>, ops: seq<Op>, k: nat)
    requires IsRun(r, states, ops) && states[0] == EMPTY && k <= |ops|
    ensures states[k].last.None? <==> Grants(GrantsOf(r, states, ops), 0, k) == 0
  {
    if k > 0 {
      PointerEmptyUntilFirstGrant(r, states, ops, k - 1);
      RunIsPointerRun(r, states, ops);
      assert PointerStep(r, states[k - 1], GrantsOf(r, states, ops)[k - 1], states[k - 1 + 1]);
    }
  }

  /** How far y lies ahead of a, counted forward round the ring; a itself lies 0 ahead. */
  function Offset(r: Ring, a: nat, y: nat): nat
    requires r.Wf() && r.Has(a) && r.Has(y)
  {
    if y >= a then y - a else y - a + r.N()
  }

  /** b was free when a was granted at step i and has not been granted before step m. */
  ghost predicate Unseen(r: Ring, states: seq<Data>, gs: seq<Option<nat>>, i: nat, m: nat, a: nat, b: nat)
    requires i < m <= |gs| && |states| == |gs| + 1
  {
    r.Has(b) && b != a && b !in states[i].ips && !GrantedWithin(gs, i + 1, m, b)
  }

  /** Every unseen address is still free and still ahead of the pointer. */
  ghost predicate UnseenAhead(r: Ring, states: seq<Data>, gs: seq<Option<nat>>, i: nat, m: nat, a: nat)
    requires r.Wf() && r.Has(a) && i < m <= |gs| && |states| == |gs| + 1
  {
    var d := states[m];
    && d.last.Some? && r.Has(d.last.value)
    && forall b :: Unseen(r, states, gs, i, m, a, b) ==>
         b !in d.ips && Offset(r, a, d.last.value) < Offset(r, a, b)
  }

  lemma UnseenAheadStep(r: Ring, states: seq<Data>, gs: seq<Option<nat>>, i: nat, m: nat, a: nat)
    requires PointerRun(r, states, gs) && i < m < |gs| && r.Has(a) && UnseenAhead(r, states, gs, i, m, a)
    ensures UnseenAhead(r, states, gs, i, m + 1, a)
    ensures gs[m] == Some(a) ==> forall b :: !Unseen(r, states, gs, i, m, a, b)
  {
    var d, d', g := states[m], states[m + 1], gs[m];
    assert PointerStep(r, d, g, d');
    forall b | Unseen(r, states, gs, i, m, a, b) ensures g != Some(a) {
      if g.Some? {
        assert r.Dist(d.last.value, g.value) <= r.Dist(d.last.value, b);
      }
    }
    forall b | Unseen(r, states, gs, i, m + 1, a, b)
      ensures b !in d'.ips && Offset(r, a, d'.last.value) < Offset(r, a, b)
    {
      assert Unseen(r, states, gs, i, m, a, b) && g != Some(b);
      if g.Some? {
        assert r.Dist(d.last.value, g.value) <= r.Dist(d.last.value, b);
      }
    }
  }

  lemma {:induction false} UnseenAheadUpTo(r: Ring, states: seq<Data>, gs: seq<Option<nat>>, i: nat, m: nat, a: nat)
    requires PointerRun(r, states, gs) && i < m <= |gs| && r.Has(a) && gs[i] == Some(a)
    ensures UnseenAhead(r, states, gs, i, m, a)
    decreases m
  {
    if m == i + 1 {
      assert PointerStep(r, states[i], gs[i], states[m]);
    } else {
      UnseenAheadUpTo(r, states, gs, i, m - 1, a);
      UnseenAheadStep(r, states, gs, i, m - 1, a);
    }
  }

  // ---- reuse distance ----

  /** Reuse distance: between two grants of the same address, every other ring address is granted or
      was leased before the first of them; so at least N - 1 - u other grants lie between, where u is
      the number of leases live just before the first. */
  lemma ReuseDistance(r: Ring, states: seq<Data>, ops: seq<Op>, i: nat, j: nat, a: nat)
    requires IsRun(r, states, ops) && i < j < |ops|
    requires GrantsOf(r, states, ops)[i] == GrantsOf(r, states, ops)[j] == Some(a)
    ensures forall b :: r.Has(b) && b != a ==>
              b in states[i].ips || GrantedWithin(GrantsOf(r, states, ops), i + 1, j, b)
    ensures Grants(GrantsOf(r, states, ops), i + 1, j) >= r.N() - 1 - |states[i].ips|
  {
    RunIsPointerRun(r, states, ops);
    PointerReuse(r, states, GrantsOf(r, states, ops), i, j, a);
  }

  lemma PointerReuse(r: Ring, states: seq<Data>, gs: seq<Option<nat>>, i: nat, j: nat, a: nat)
    requires PointerRun(r, states, gs) && i < j < |gs| && gs[i] == gs[j] == Some(a)
    ensures forall b :: r.Has(b) && b != a ==> b in states[i].ips || GrantedWithin(gs, i + 1, j, b)
    ensures Grants(gs, i + 1, j) >= r.N() - 1 - |states[i].ips|
  {
    GrantInRing(r, states, gs, i);
    NoneUnseen(r, states, gs, i, j, a);
    CountGrants(r, states[i].ips.Keys, gs, i + 1, j, a);
  }

  lemma CountGrants(r: Ring, before: set<nat>, gs: seq<Option<nat>>, i: nat, j: nat, a: nat)
    requires r.Wf() && r.Has(a) && i <= j <= |gs|
    requires forall b :: r.Has(b) && b != a ==> b in before || GrantedWithin(gs, i, j, b)
    ensures Grants(gs, i, j) >= r.N() - 1 - |before|
  {
    var seen := r.Addresses() - {a} - before;
    forall b | b in seen ensures GrantedWithin(gs, i, j, b) {
      assert r.Has(b);
    }
    GrantsCover(gs, i, j, seen);
    OthersCount(r, a, before);
  }

  lemma GrantInRing(r: Ring, states: seq<Data>, gs: seq<Option<nat>>, i: nat)
    requires PointerRun(r, states, gs) && i < |gs| && gs[i].Some?
    ensures r.Has(gs[i].value)
  {
    assert PointerStep(r, states[i], gs[i], states[i + 1]);
  }

  lemma NoneUnseen(r: Ring, states: seq<Data>, gs: seq<Option<nat>>, i: nat, j: nat, a: nat)
    requires PointerRun(r, states, gs) && i < j < |gs| && r.Has(a) && gs[i] == gs[j] == Some(a)
    ensures forall b :: r.Has(b) && b != a ==> b in states[i].ips || GrantedWithin(gs, i + 1, j, b)
  {
    UnseenAheadUpTo(r, states, gs, i, j, a);
    UnseenAheadStep(r, states, gs, i, j, a);
    forall b | r.Has(b) && b != a && b !in states[i].ips ensures GrantedWithin(gs, i + 1, j, b) {
      assert !Unseen(r, states, gs, i, j, a, b);
    }
  }

  lemma OthersCount(r: Ring, a: nat, before: set<nat>)
    requires r.Wf() && r.Has(a)
    ensures |r.Addresses() - {a} - before| >= r.N() - 1 - |before|
  {
    RingSize(r);
    assert |r.Addresses() - {a}| == r.N() - 1;
    DifferenceSize(r.Addresses() - {a}, before);
  }

  lemma DifferenceSize<T>(a: set<T>, b: set<T>)
    ensures |a - b| >= |a| - |b|
  {
    SubsetSize(a * b, b);
    assert a == (a - b) + a * b;
  }

  /** Distinct granted addresses need that many grants. */
  lemma {:induction false} GrantsCover(gs: seq<Option<nat>>, i: nat, j: nat, seen: set<nat>)
    requires j <= |gs|
    requires forall b :: b in seen ==> GrantedWithin(gs, i, j, b)
    ensures Grants(gs, i, j) >= |seen|
    decreases j
  {
    if j <= i {
      assert seen == {};
    } else {
      var g := gs[j - 1];
      var rest := if g.Some? then seen - {g.value} else seen;
      forall b | b in rest ensures GrantedWithin(gs, i, j - 1, b) {
        var k :| i <= k < j && gs[k] == Some(b);
        assert k < j - 1;
      }
      GrantsCover(gs, i, j - 1, rest);
    }
  }

  /** If at most u leases are live at a grant, any N - u consecutive grants from it on are of pairwise
      distinct addresses; with every lease released at once u is 0 and N grants in a row differ. */
  lemma WindowDistinct(r: Ring, states: seq<Data>, ops: seq<Op>, i: nat, j: nat, u: nat)
    requires IsRun(r, states, ops) && i < j < |ops|
    requires GrantsOf(r, states, ops)[i].Some? && GrantsOf(r, states, ops)[j].Some?
    requires |states[i].ips| <= u
    requires Grants(GrantsOf(r, states, ops), i, j + 1) <= r.N() - u
    ensures GrantsOf(r, states, ops)[i] != GrantsOf(r, states, ops)[j]
  {
    var gs := GrantsOf(r, states, ops);
    if gs[i] == gs[j] {
      ReuseDistance(r, states, ops, i, j, gs[i].value);
      GrantsFirst(gs, i, j);
    }
  }

  lemma {:induction false} GrantsFirst(gs: seq<Option<nat>>, i: nat, j: nat)
    requires i < j <= |gs| && gs[i].Some?
    ensures Grants(gs, i, j) == 1 + Grants(gs, i + 1, j)
    decreases j
  {
    if j > i + 1 {
      GrantsFirst(gs, i, j - 1);
    }
  }

  // ---- immediate release: exact round robin ----

  /** Every ADD is directly followed by the DEL of the same container. */
  ghost predicate AddDelRun(ops: seq<Op>) {
    && |ops| % 2 == 0
    && forall k :: 0 <= 2 * k < |ops| ==> ops[2 * k].Add? && ops[2 * k + 1] == Del(ops[2 * k].id)
  }

  /** The address at position k of the ring, counted round and round from the first. */
  function Nth(r: Ring, k: nat): (ip: nat)
    requires r.Wf() && r.N() > 0
    ensures r.Has(ip)
  {
    r.gw + 1 + k % r.N()
  }

  lemma NthFollows(r: Ring, k: nat)
    requires r.Wf() && r.N() > 0
    ensures r.Dist(if k == 0 then r.gw else Nth(r, k - 1), Nth(r, k)) == 1
  {
    NextModulo(if k == 0 then 0 else k - 1, r.N());
  }

  /** From an empty file, the k-th ADD of such a run is granted the (k mod N)-th address of the ring. */
  lemma {:induction false} RoundRobin(r: Ring, states: seq<Data>, ops: seq<Op>, k: nat)
    requires IsRun(r, states, ops) && states[0] == EMPTY && r.N() > 0
    requires AddDelRun(ops) && 2 * k < |ops|
    ensures Inv(r, states[2 * k]) && GrantOf(r, states[2 * k], ops[2 * k]) == Some(Nth(r, k))
    ensures states[2 * k + 2] == Data(map[], Some(Nth(r, k)))
  {
    if k > 0 {
      RoundRobin(r, states, ops, k - 1);
      assert 2 * (k - 1) + 2 == 2 * k;
    }
    NthFollows(r, k);
    var d, add, del := states[2 * k], ops[2 * k], ops[2 * k + 1];
    assert Next(r, d, add, states[2 * k + 1]);
    assert Next(r, states[2 * k + 1], del, states[2 * k + 1 + 1]);
    AddDelStep(r, d, add.id, add.ifName, Nth(r, k));
  }

  /** Two ADDs of such a run are granted the same address exactly if they lie a multiple of N apart. */
  lemma RoundRobinRepeats(r: Ring, states: seq<Data>, ops: seq<Op>, j: nat, k: nat)
    requires IsRun(r, states, ops) && states[0] == EMPTY && r.N() > 0
    requires AddDelRun(ops) && j <= k && 2 * k < |ops|
    ensures Inv(r, states[2 * j]) && Inv(r, states[2 * k])
    ensures GrantOf(r, states[2 * j], ops[2 * j]) == GrantOf(r, states[2 * k], ops[2 * k]) <==> (k - j) % r.N() == 0
  {
    RoundRobin(r, states, ops, j);
    RoundRobin(r, states, ops, k);
    SameNth(r, j, k);
  }

  lemma SameNth(r: Ring, j: nat, k: nat)
    requires r.Wf() && r.N() > 0 && j <= k
    ensures Nth(r, j) == Nth(r, k) <==> (k - j) % r.N() == 0
  {
    SameRemainder(j, k, r.N());
  }

  lemma SameRemainder(j: nat, k: nat, n: nat)
    requires n > 0 && j <= k
    ensures j % n == k % n <==> (k - j) % n == 0
  {
    var p, q := j / n, k / n;
    assert j == p * n + j % n && k == q * n + k % n;
    if j % n == k % n {
      assert k - j == (q - p) * n + 0;
      DivModUnique(k - j, n, q - p, 0);
    } else if (k - j) % n == 0 {
      var d := (k - j) / n;
      assert k == (p + d) * n + j % n by {
        assert k - j == d * n;
      }
      DivModUnique(k, n, p + d, j % n);
    }
  }

  lemma AddDelStep(r: Ring, d: Data, id: string, ifName: string, ip: nat)
    requires Inv(r, d) && d.ips == map[] && r.Has(ip) && r.Dist(Pointer(r, d), ip) == 1
    ensures GrantOf(r, d, Add(id, ifName)) == Some(ip)
    ensures var d1 := Apply(r, d, Add(id, ifName)).0; Inv(r, d1) && Apply(r, d1, Del(id)).0 == Data(map[], Some(ip))
  {
    assert r.IsFirstFree(d.ips.Keys, Pointer(r, d), ip);
    FirstFreeUnique(r, d.ips.Keys, Pointer(r, d), ip);
    assert LeaseOf(d, id).None?;
    DelUndoesAdd(r, d, id, ifName);
  }

  lemma NextModulo(k: nat, n: nat)
    requires n > 0
    ensures (k + 1) % n == if k % n == n - 1 then 0 else k % n + 1
    ensures 0 % n == 0
  {
    var q := k / n;
    assert k == q * n + k % n;
    if k % n == n - 1 {
      DivModUnique(k + 1, n, q + 1, 0);
    } else {
      DivModUnique(k + 1, n, q, k % n + 1);
    }
    DivModUnique(0, n, 0, 0);
  }

  // ---- who holds an address when ----

  /** A lease lasts until the DEL of its container. */
  lemma {:induction false} LeasePersists(r: Ring, states: seq<Data>, ops: seq<Op>, i: nat, j: nat, ip: nat, id: string)
    requires IsRun(r, states, ops) && i <= j <= |ops|
    requires Holds(states[i], ip, id)
    requires forall k :: i <= k < j ==> ops[k] != Del(id)
    ensures Holds(states[j], ip, id)
    decreases j
  {
    if i < j {
      LeasePersists(r, states, ops, i, j - 1, ip, id);
      assert Next(r, states[j - 1], ops[j - 1], states[j - 1 + 1]);
      LeaseStep(r, states[j - 1], ops[j - 1], ip, id);
    }
  }

  lemma LeaseStep(r: Ring, d: Data, op: Op, ip: nat, id: string)
    requires Inv(r, d) && Holds(d, ip, id) && op != Del(id)
    ensures Holds(Apply(r, d, op).0, ip, id)
  {
    if op.id != id {
      OthersUntouched(r, d, op, ip, id);
    } else {
      HoldsIsLease(d, ip, id);
    }
  }

  ghost function ReplyAt(r: Ring, states: seq<Data>, ops: seq<Op>, k: nat): Reply
    requires IsRun(r, states, ops) && k < |ops|
  {
    assert Next(r, states[k], ops[k], states[k + 1]);
    Apply(r, states[k], ops[k]).1
  }

  /** An address answered to one container is answered to another only after the DEL of the first. */
  lemma Exclusive(r: Ring, states: seq<Data>, ops: seq<Op>, i: nat, j: nat, ip: nat)
    requires IsRun(r, states, ops) && i < j < |ops| && ops[i].id != ops[j].id
    requires ReplyAt(r, states, ops, i) == ReplyAt(r, states, ops, j) == Granted(ip)
    ensures exists k :: i < k < j && ops[k] == Del(ops[i].id)
  {
    if forall k :: i < k < j ==> ops[k] != Del(ops[i].id) {
      assert Next(r, states[i], ops[i], states[i + 1]);
      assert Next(r, states[j], ops[j], states[j + 1]);
      GrantHolds(r, states[i], ops[i], ip);
      LeasePersists(r, states, ops, i + 1, j, ip, ops[i].id);
      GrantHolds(r, states[j], ops[j], ip);
      OthersUntouched(r, states[j], ops[j], ip, ops[i].id);
    }
  }

  lemma GrantHolds(r: Ring, d: Data, op: Op, ip: nat)
    requires Inv(r, d) && Apply(r, d, op).1 == Granted(ip)
    ensures Holds(Apply(r, d, op).0, ip, op.id)
  {
  }
}
