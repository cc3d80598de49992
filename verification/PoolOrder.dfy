/** What reachable stores say about one host over time: which commands can change it, how long a device
    keeps its address, and in which order addresses are handed out. */
module PoolOrder {
  import opened Allocator
  import opened Bags
  import opened ClusterRuns
  import opened ClusterState
  import opened EtcdKeys
  import opened HostSubnets
  import opened PoolQueue
  import opened Results
  import opened Text

  // ---- hosts do not disturb each other ----

  /** A command writes the cluster pool, its own host's subnet, gateway and pool, and its own device. */
  lemma StepTouches(kv: Kv, op: Op, k: Key)
    requires OpOk(op) && k.Wf() && !Touched(k, op.host, op.id)
    ensures Read(KvStep(kv, op), k) == Read(kv, k)
  {
    match op
    case Add(h, id) => AddFrame(kv, h, id, k);
    case Del(h, id) => ReleaseFrame(kv, h, id, k);
  }

  lemma KeyStep(kvs: seq<Kv>, ops: seq<Op>, n: nat, k: Key)
    requires IsKvRun(kvs, ops) && n < |ops| && k.Wf() && !Touched(k, ops[n].host, ops[n].id)
    ensures Read(kvs[n + 1], k) == Read(kvs[n], k)
  {
    assert KvNext(kvs, ops, n);
    StepTouches(kvs[n], ops[n], k);
  }

  /** While a host runs no command, every key of that host keeps its text. */
  lemma {:induction false} OthersKeepKeys(kvs: seq<Kv>, ops: seq<Op>, i: nat, j: nat, k: Key)
    requires IsKvRun(kvs, ops) && i <= j <= |ops| && k.Wf() && !k.Pool?
    requires forall n :: i <= n < j ==> ops[n].host != k.host
    ensures Read(kvs[j], k) == Read(kvs[i], k)
    decreases j
  {
    if i < j {
      OthersKeepKeys(kvs, ops, i, j - 1, k);
      KeyStep(kvs, ops, j - 1, k);
    }
  }

  /** A pool after the host's own commands among steps i to j; every other command is skipped. */
  ghost function PoolAfter(pool: HostState, ops: seq<Op>, h: string, i: nat, j: nat): HostState
    requires i <= j <= |ops|
    decreases j
  {
    if i == j then pool
    else
      var before := PoolAfter(pool, ops, h, i, j - 1);
      if ops[j - 1].host == h then HostStep(before, HostOpOf(ops[j - 1])) else before
  }

  /** Between two points of a run a host's pool text and leases change only by that host's own commands. */
  lemma {:induction false} HostsAreIndependent(kvs: seq<Kv>, ops: seq<Op>, i: nat, j: nat, h: string)
    requires IsKvRun(kvs, ops) && i <= j <= |ops| && HostName(h) && Read(kvs[i], Host(h)) != ""
    ensures Read(kvs[j], Host(h)) == Read(kvs[i], Host(h))
    ensures PoolOf(kvs[j], h) == PoolAfter(PoolOf(kvs[i], h), ops, h, i, j)
    decreases j
  {
    if i < j {
      HostsAreIndependent(kvs, ops, i, j - 1, h);
      PoolStep(kvs, ops, j - 1, h);
    }
  }

  // ---- how long a device keeps its address ----

  /** The address each step answers: None for a DEL, and for an ADD that crashes or answers none. */
  ghost function Answers(kvs: seq<Kv>, ops: seq<Op>): (r: seq<Option<nat>>)
    requires |kvs| == |ops| + 1
    ensures |r| == |ops|
  {
    seq(|ops|, m requires 0 <= m < |ops| => Answered(kvs[m], ops[m]))
  }

  ghost function Answered(kv: Kv, op: Op): Option<nat> {
    if op.Del? then None
    else
      var r := AddEffect(kv, op.host, op.id).1;
      if r.Ok? then r.value.address else None
  }

  lemma AnswerIsStored(kvs: seq<Kv>, ops: seq<Op>, m: nat, h: string, id: string)
    requires IsKvRun(kvs, ops) && m < |ops| && ops[m] == Add(h, id)
    ensures Answers(kvs, ops)[m] == AddressOf(Read(kvs[m + 1], Device(h, id)))
    ensures Answers(kvs, ops)[m].Some? <==> Read(kvs[m + 1], Device(h, id)) != ""
  {
    AddAnswers(kvs, ops, m, h, id);
  }

  /** Step m is an ADD for the device that answered an address, and up to step k no DEL undid it. */
  ghost predicate Stands(kvs: seq<Kv>, ops: seq<Op>, m: nat, k: nat, h: string, id: string)
    requires |kvs| == |ops| + 1 && m < k <= |ops|
  {
    ops[m] == Add(h, id) && Answers(kvs, ops)[m].Some? && forall n :: m < n < k ==> ops[n] != Del(h, id)
  }

  /** One step and one device key: a DEL of the device blanks it, only an ADD for it can fill it, and
      nothing else changes it. */
  lemma DeviceStep(kvs: seq<Kv>, ops: seq<Op>, k: nat, h: string, id: string)
    requires IsKvRun(kvs, ops) && k < |ops| && HostName(h) && '-' in id
    ensures var before, after := Read(kvs[k], Device(h, id)), Read(kvs[k + 1], Device(h, id));
            && (ops[k] == Del(h, id) ==> after == "")
            && (ops[k] != Del(h, id) && (before != "" || ops[k] != Add(h, id)) ==> after == before)
  {
    assert KvNext(kvs, ops, k);
    if ops[k] == Del(h, id) {
      ReleaseBlanks(kvs[k], h, id);
    } else if ops[k] == Add(h, id) {
      if Read(kvs[k], Device(h, id)) != "" {
        DeviceKept(kvs[k], h, id);
      }
    } else {
      assert Device(h, id).Wf();
      KeyStep(kvs, ops, k, Device(h, id));
    }
  }

  /** A device key keeps its text up to the DEL of the device. */
  lemma {:induction false} TextKept(kvs: seq<Kv>, ops: seq<Op>, i: nat, k: nat, h: string, id: string)
    requires IsKvRun(kvs, ops) && i <= k <= |ops| && HostName(h) && '-' in id && Read(kvs[i], Device(h, id)) != ""
    requires forall n :: i <= n < k ==> ops[n] != Del(h, id)
    ensures Read(kvs[k], Device(h, id)) == Read(kvs[i], Device(h, id))
    decreases k
  {
    if i < k {
      TextKept(kvs, ops, i, k - 1, h, id);
      DeviceStep(kvs, ops, k - 1, h, id);
    }
  }

  lemma FirstBlank(kvs: seq<Kv>, ops: seq<Op>, k: Key)
    requires IsKvRun(kvs, ops)
    ensures Read(kvs[0], k) == ""
  {
  }

  /** Text in a device key was put there by an ADD for the device that no DEL undid. */
  lemma {:induction false} FilledBy(kvs: seq<Kv>, ops: seq<Op>, k: nat, h: string, id: string) returns (m: nat)
    requires IsKvRun(kvs, ops) && k <= |ops| && HostName(h) && '-' in id && Read(kvs[k], Device(h, id)) != ""
    ensures m < k && ops[m] == Add(h, id) && Read(kvs[m + 1], Device(h, id)) != ""
    ensures forall n :: m < n < k ==> ops[n] != Del(h, id)
    decreases k
  {
    FirstBlank(kvs, ops, Device(h, id));
    DeviceStep(kvs, ops, k - 1, h, id);
    if ops[k - 1] == Add(h, id) {
      m := k - 1;
    } else {
      m := FilledBy(kvs, ops, k - 1, h, id);
    }
  }

  lemma KeptSinceAdd(kvs: seq<Kv>, ops: seq<Op>, m: nat, k: nat, h: string, id: string)
    requires IsKvRun(kvs, ops) && m < k <= |ops| && ops[m] == Add(h, id) && Read(kvs[m + 1], Device(h, id)) != ""
    requires forall n :: m < n < k ==> ops[n] != Del(h, id)
    ensures Read(kvs[k], Device(h, id)) == Read(kvs[m + 1], Device(h, id))
  {
    OpIsOk(kvs, ops, m);
    TextKept(kvs, ops, m + 1, k, h, id);
  }

  /** The lookup of a device finds text exactly if an earlier ADD for it answered an address and no DEL
      for it came since; what it finds is the address answered. */
  lemma FoundIffAdded(kvs: seq<Kv>, ops: seq<Op>, k: nat, h: string, id: string)
    requires IsKvRun(kvs, ops) && k <= |ops| && HostName(h) && '-' in id
    ensures Read(kvs[k], Device(h, id)) != "" <==> exists m :: 0 <= m < k && Stands(kvs, ops, m, k, h, id)
    ensures forall m :: 0 <= m < k && Stands(kvs, ops, m, k, h, id) ==>
                          AddressOf(Read(kvs[k], Device(h, id))) == Answers(kvs, ops)[m]
  {
    if Read(kvs[k], Device(h, id)) != "" {
      var m := FilledBy(kvs, ops, k, h, id);
      AnswerIsStored(kvs, ops, m, h, id);
      assert Stands(kvs, ops, m, k, h, id);
    }
    forall m | 0 <= m < k && Stands(kvs, ops, m, k, h, id)
      ensures Read(kvs[k], Device(h, id)) != ""
      ensures AddressOf(Read(kvs[k], Device(h, id))) == Answers(kvs, ops)[m]
    {
      AnswerIsStored(kvs, ops, m, h, id);
      KeptSinceAdd(kvs, ops, m, k, h, id);
    }
  }

  // ---- the pools of a host over time ----

  ghost predicate PoolAt(kvs: seq<Kv>, pools: seq<HostState>, n: nat, h: string)
    requires n < |kvs| == |pools|
  {
    pools[n] == PoolOf(kvs[n], h)
  }

  /** The text of the device a step is for, before and after the step, is its lease in the pools. */
  ghost predicate TextsAt(kvs: seq<Kv>, pools: seq<HostState>, ops: seq<Op>, n: nat, h: string)
    requires |kvs| == |pools| == |ops| + 1 && n < |ops|
  {
    var id := ops[n].id;
    && Read(kvs[n], Device(h, id)) == LeaseText(pools[n], id)
    && (id in pools[n].leases ==> pools[n].leases[id] != "")
    && (pools[n].free != [] ==> pools[n].free[0] != "")
    && Read(kvs[n + 1], Device(h, id)) == LeaseText(pools[n + 1], id)
  }

  predicate PoolNext(pools: seq<HostState>, ops: seq<Op>, n: nat, h: string)
    requires n < |ops| && |pools| == |ops| + 1
  {
    pools[n + 1] == if ops[n].host == h then HostStep(pools[n], HostOpOf(ops[n])) else pools[n]
  }

  /** The pools of a host over time. */
  lemma PoolsOf(kvs: seq<Kv>, ops: seq<Op>, h: string, i: nat, j: nat) returns (pools: seq<HostState>)
    requires IsKvRun(kvs, ops) && i <= j <= |ops| && HostName(h) && Read(kvs[i], Host(h)) != ""
    ensures |pools| == |kvs|
    ensures forall n :: i <= n <= j ==> PoolAt(kvs, pools, n, h)
    ensures forall n :: i <= n < j ==> PoolNext(pools, ops, n, h) && TextsAt(kvs, pools, ops, n, h)
  {
    pools := seq(|kvs|, n requires 0 <= n < |kvs| => PoolOf(kvs[n], h));
    forall n | i <= n < j ensures PoolNext(pools, ops, n, h) && TextsAt(kvs, pools, ops, n, h) {
      HasSubnetStill(kvs, ops, i, n, h);
      PoolsStep(kvs, ops, pools, n, h);
    }
  }

  lemma PoolsStep(kvs: seq<Kv>, ops: seq<Op>, pools: seq<HostState>, n: nat, h: string)
    requires IsKvRun(kvs, ops) && n < |ops| && |pools| == |kvs| && HostName(h) && Read(kvs[n], Host(h)) != ""
    requires PoolAt(kvs, pools, n, h) && PoolAt(kvs, pools, n + 1, h)
    ensures PoolNext(pools, ops, n, h) && TextsAt(kvs, pools, ops, n, h)
  {
    PoolStep(kvs, ops, n, h);
    DeviceText(kvs, ops, n, h);
  }

  lemma HasSubnetStill(kvs: seq<Kv>, ops: seq<Op>, i: nat, j: nat, h: string)
    requires IsKvRun(kvs, ops) && i <= j <= |ops| && HostName(h) && Read(kvs[i], Host(h)) != ""
    ensures Read(kvs[j], Host(h)) != ""
  {
    HostsAreIndependent(kvs, ops, i, j, h);
  }

  lemma DeviceText(kvs: seq<Kv>, ops: seq<Op>, n: nat, h: string)
    requires IsKvRun(kvs, ops) && n < |ops| && HostName(h) && Read(kvs[n], Host(h)) != ""
    ensures var id, pool := ops[n].id, PoolOf(kvs[n], h);
            && Read(kvs[n], Device(h, id)) == LeaseText(pool, id)
            && (id in pool.leases ==> pool.leases[id] != "")
            && (pool.free != [] ==> pool.free[0] != "")
            && Read(kvs[n + 1], Device(h, id)) == LeaseText(PoolOf(kvs[n + 1], h), id)
  {
    OpIsOk(kvs, ops, n);
    PoolStep(kvs, ops, n, h);
    var i := PoolFacts(kvs, ops, n, h);
    var i' := PoolFacts(kvs, ops, n + 1, h);
  }

  // ---- first in, first out ----

  /** The address text a step hands out: an ADD of the host that finds the device key blank and leaves
      text in it. */
  ghost function Granted(kv: Kv, op: Op, kv': Kv, h: string): Option<string> {
    Filled(op, h, Read(kv, Device(h, op.id)), Read(kv', Device(h, op.id)))
  }

  function Filled(op: Op, h: string, before: string, after: string): Option<string> {
    if op.Add? && op.host == h && before == "" && after != "" then Some(after) else None
  }

  /** The one it takes back: a DEL of a device of the host whose key has text. */
  ghost function Returned(kv: Kv, op: Op, h: string): Option<string> {
    Emptied(op, h, Read(kv, Device(h, op.id)))
  }

  function Emptied(op: Op, h: string, before: string): Option<string> {
    if op.Del? && op.host == h && before != "" then Some(before) else None
  }

  /** For each step of a run, what it hands out and what it takes back; for each store, the queue. */
  ghost function Grants(kvs: seq<Kv>, ops: seq<Op>, h: string): (r: Moves)
    requires |kvs| == |ops| + 1
    ensures |r| == |ops|
  {
    seq(|ops|, m requires 0 <= m < |ops| => Granted(kvs[m], ops[m], kvs[m + 1], h))
  }

  ghost function Returns(kvs: seq<Kv>, ops: seq<Op>, h: string): (r: Moves)
    requires |kvs| == |ops| + 1
    ensures |r| == |ops|
  {
    seq(|ops|, m requires 0 <= m < |ops| => Returned(kvs[m], ops[m], h))
  }

  /** One step moves the queue by what it hands out and takes back. */
  lemma StepMoves(kvs: seq<Kv>, ops: seq<Op>, pools: seq<HostState>, n: nat, h: string)
    requires |kvs| == |pools| == |ops| + 1 && n < |ops|
    requires PoolNext(pools, ops, n, h) && TextsAt(kvs, pools, ops, n, h)
    ensures MovedAt(pools, Grants(kvs, ops, h), Returns(kvs, ops, h), n)
  {
    PoolMoves(pools[n], ops[n], h, pools[n + 1]);
  }

  /** The queue of a pool moves by the change of the text of the device the command is for. */
  lemma PoolMoves(pool: HostState, op: Op, h: string, pool': HostState)
    requires pool' == if op.host == h then HostStep(pool, HostOpOf(op)) else pool
    requires (pool.free != [] ==> pool.free[0] != "") && (op.id in pool.leases ==> pool.leases[op.id] != "")
    ensures var before, after := LeaseText(pool, op.id), LeaseText(pool', op.id);
            Moved(pool.free, Filled(op, h, before, after), Emptied(op, h, before), pool'.free)
  {
    if op.host == h {
      StepKeepsOrder(pool, HostOpOf(op));
    }
  }

  lemma RunMoves(kvs: seq<Kv>, ops: seq<Op>, h: string, i: nat, j: nat) returns (queues: seq<seq<string>>)
    requires IsKvRun(kvs, ops) && i <= j <= |ops| && HostName(h) && Read(kvs[i], Host(h)) != ""
    ensures Ordered(queues, Grants(kvs, ops, h), Returns(kvs, ops, h), i, j)
    ensures queues[i] == FreeQueue(kvs[i], h) && queues[j] == FreeQueue(kvs[j], h)
  {
    var pools := PoolsOf(kvs, ops, h, i, j);
    assert PoolAt(kvs, pools, i, h) && PoolAt(kvs, pools, j, h);
    forall n | i <= n < j ensures MovedAt(pools, Grants(kvs, ops, h), Returns(kvs, ops, h), n) {
      StepMoves(kvs, ops, pools, n, h);
    }
    queues := QueuesOf(pools, Grants(kvs, ops, h), Returns(kvs, ops, h), i, j);
  }

  ghost predicate MovedAt(pools: seq<HostState>, outs: Moves, backs: Moves, n: nat)
    requires |pools| == |outs| + 1 == |backs| + 1 && n < |outs|
  {
    Moved(pools[n].free, outs[n], backs[n], pools[n + 1].free)
  }

  lemma QueuesOf(pools: seq<HostState>, outs: Moves, backs: Moves, i: nat, j: nat) returns (queues: seq<seq<string>>)
    requires |pools| == |outs| + 1 == |backs| + 1 && i <= j <= |outs|
    requires forall n :: i <= n < j ==> MovedAt(pools, outs, backs, n)
    ensures Ordered(queues, outs, backs, i, j) && queues[i] == pools[i].free && queues[j] == pools[j].free
  {
    queues := seq(|pools|, n requires 0 <= n < |pools| => pools[n].free);
    forall n | i <= n < j ensures Moved(queues[n], outs[n], backs[n], queues[n + 1]) {
      assert MovedAt(pools, outs, backs, n);
    }
  }

  /** The queue law of every run: what the steps from i to j hand out, then what is queued at j, is what
      was queued at i, then what the steps took back. */
  lemma QueueLaw(kvs: seq<Kv>, ops: seq<Op>, h: string, i: nat, j: nat)
    requires IsKvRun(kvs, ops) && i <= j <= |ops| && HostName(h) && Read(kvs[i], Host(h)) != ""
    ensures Log(Grants(kvs, ops, h), i, j) + NonBlank(Split(Read(kvs[j], HostPool(h)), ';')) ==
            NonBlank(Split(Read(kvs[i], HostPool(h)), ';')) + Log(Returns(kvs, ops, h), i, j)
  {
    var queues := RunMoves(kvs, ops, h, i, j);
    LogLaw(queues, Grants(kvs, ops, h), Returns(kvs, ops, h), i, j);
  }

  /** FIFO reuse in every run: between the DEL that gives an address back at step i and the step j at which
      the host next hands that address out, the host hands out exactly the addresses its pool text held at
      step i, in their order, whatever other commands run in between. */
  lemma ReleasedAddressGoesLast(kvs: seq<Kv>, ops: seq<Op>, i: nat, j: nat, h: string, a: string)
    requires IsKvRun(kvs, ops) && i < j < |ops| && HostName(h)
    requires Returns(kvs, ops, h)[i] == Some(a) && NextOf(Grants(kvs, ops, h), a, i, j)
    ensures Log(Grants(kvs, ops, h), i + 1, j) == NonBlank(Split(Read(kvs[i], HostPool(h)), ';'))
  {
    NotQueued(kvs, ops, i, h, a);
    var queues := RunMoves(kvs, ops, h, i, j + 1);
    BackGoesLast(queues, Grants(kvs, ops, h), Returns(kvs, ops, h), i, j, a);
  }

  /** An address given back was not queued. */
  lemma NotQueued(kvs: seq<Kv>, ops: seq<Op>, i: nat, h: string, a: string)
    requires IsKvRun(kvs, ops) && i < |ops| && HostName(h) && Returned(kvs[i], ops[i], h) == Some(a)
    ensures Read(kvs[i], Host(h)) != "" && a !in FreeQueue(kvs[i], h)
  {
    OpIsOk(kvs, ops, i);
    HasSubnet(kvs, ops, i, h, ops[i].id);
    var n := PoolFacts(kvs, ops, i, h);
    SubnetCount(n);
    LeasedNotQueued(PoolOf(kvs[i], h), ops[i].id, SubnetIps(n));
  }

  lemma LeasedNotQueued(pool: HostState, id: string, ips: seq<string>)
    requires HostInv(pool, ips) && NoRepeats(ips) && id in pool.leases
    ensures pool.leases[id] !in pool.free
  {
    OnlyValid(pool, pool.leases[id], ips);
    FreeOrLeasedOnce(pool, pool.leases[id], ips);
  }

  lemma HasSubnet(kvs: seq<Kv>, ops: seq<Op>, k: nat, h: string, id: string)
    requires IsKvRun(kvs, ops) && k <= |ops| && HostName(h) && '-' in id && Read(kvs[k], Device(h, id)) != ""
    ensures Read(kvs[k], Host(h)) != ""
  {
    var c := AbsOf(kvs, ops, k);
    HostFacts(kvs[k], c, h);
  }

  // ---- how far a blank delays ----

  /** The host's ADD for a device that has no lease. */
  ghost predicate Fresh(kvs: seq<Kv>, ops: seq<Op>, n: nat, h: string)
    requires |kvs| == |ops| + 1 && n < |ops|
  {
    ops[n].Add? && ops[n].host == h && Read(kvs[n], Device(h, ops[n].id)) == ""
  }

  /** An ADD that meets the blank leaves every lease of the host as it is. The host's next ADD for a device
      without a lease is given the first address that was free at that moment; if none was free it meets
      the blank again. Other hosts' commands, DELs and repeated ADDs may come in between. */
  lemma BlankDelaysOneAdd(kvs: seq<Kv>, ops: seq<Op>, k: nat, j: nat, h: string, id: string, id': string)
    requires IsKvRun(kvs, ops) && k < j < |ops| && ops[k] == Add(h, id) && ops[j] == Add(h, id')
    requires BlankAhead(kvs[k], h, id) && Read(kvs[j], Device(h, id')) == ""
    requires forall n :: k < n < j ==> !Fresh(kvs, ops, n, h)
    ensures Leases(kvs[k + 1], h) == Leases(kvs[k], h)
    ensures var free := NonBlank(Split(Read(kvs[k], HostPool(h)), ';'));
            Read(kvs[j + 1], Device(h, id')) == if free == [] then "" else free[0]
  {
    var pools := DelayedPools(kvs, ops, k, j, h, id, id');
    SameLeases(kvs[k], kvs[k + 1], h, pools[k], pools[k + 1]);
  }

  lemma SameLeases(kv: Kv, kv': Kv, h: string, pool: HostState, pool': HostState)
    requires pool == PoolOf(kv, h) && pool' == PoolOf(kv', h) && pool'.leases == pool.leases
    ensures Leases(kv', h) == Leases(kv, h)
    ensures pool.free == NonBlank(Split(Read(kv, HostPool(h)), ';'))
  {
  }

  lemma DelayedPools(kvs: seq<Kv>, ops: seq<Op>, k: nat, j: nat, h: string, id: string, id': string)
    returns (pools: seq<HostState>)
    requires IsKvRun(kvs, ops) && k < j < |ops| && ops[k] == Add(h, id) && ops[j] == Add(h, id')
    requires BlankAhead(kvs[k], h, id) && Read(kvs[j], Device(h, id')) == ""
    requires forall n :: k < n < j ==> !Fresh(kvs, ops, n, h)
    ensures |pools| == |kvs|
    ensures pools[k] == PoolOf(kvs[k], h) && pools[k + 1] == PoolOf(kvs[k + 1], h)
    ensures pools[k + 1].leases == pools[k].leases
    ensures Read(kvs[j + 1], Device(h, id')) == if pools[k].free == [] then "" else pools[k].free[0]
  {
    OpIsOk(kvs, ops, k);
    pools := PoolsOf(kvs, ops, h, k, j + 1);
    assert PoolAt(kvs, pools, k, h) && PoolAt(kvs, pools, k + 1, h);
    assert TextsAt(kvs, pools, ops, j, h);
    forall n | k <= n <= j ensures Fresh(kvs, ops, n, h) <==> FreshIn(pools, ops, n, h) {
      NotFresh(kvs, ops, pools, n, h);
    }
    BlankThenFirst(pools, ops, k, j, h, id, id');
  }

  predicate FreshIn(pools: seq<HostState>, ops: seq<Op>, n: nat, h: string)
    requires n < |ops| && |pools| == |ops| + 1
  {
    ops[n].Add? && ops[n].host == h && ops[n].id !in pools[n].leases
  }

  lemma NotFresh(kvs: seq<Kv>, ops: seq<Op>, pools: seq<HostState>, n: nat, h: string)
    requires |kvs| == |pools| == |ops| + 1 && n < |ops| && TextsAt(kvs, pools, ops, n, h)
    ensures Fresh(kvs, ops, n, h) <==> FreshIn(pools, ops, n, h)
  {
  }

  /** Until the host's next ADD for a device without a lease its queue only grows, at the end, and a blank
      at its head stays. */
  lemma {:induction false} QueueWaits(pools: seq<HostState>, ops: seq<Op>, i: nat, j: nat, h: string)
    requires |pools| == |ops| + 1 && i <= j <= |ops|
    requires forall n :: i <= n < j ==> PoolNext(pools, ops, n, h) && !FreshIn(pools, ops, n, h)
    ensures pools[j].blank == pools[i].blank && pools[i].free <= pools[j].free
    decreases j
  {
    if i < j {
      QueueWaits(pools, ops, i, j - 1, h);
      assert PoolNext(pools, ops, j - 1, h) && !FreshIn(pools, ops, j - 1, h);
    }
  }

  lemma BlankThenFirst(pools: seq<HostState>, ops: seq<Op>, k: nat, j: nat, h: string, id: string, id': string)
    requires |pools| == |ops| + 1 && k < j < |ops| && ops[k] == Add(h, id) && ops[j] == Add(h, id')
    requires forall n :: k <= n <= j ==> PoolNext(pools, ops, n, h)
    requires forall n :: k < n < j ==> !FreshIn(pools, ops, n, h)
    requires pools[k].blank && id !in pools[k].leases && id' !in pools[j].leases
    ensures pools[k + 1].leases == pools[k].leases
    ensures LeaseText(pools[j + 1], id') == if pools[k].free == [] then "" else pools[k].free[0]
  {
    QueueWaits(pools, ops, k + 1, j, h);
    assert PoolNext(pools, ops, k, h) && PoolNext(pools, ops, j, h);
  }

  // ---- when the blank is there ----

  /** The command that gives a host its subnet is an ADD of the host, and finds the device key blank. */
  lemma GivesSubnet(kv: Kv, c: Cluster, op: Op, kv': Kv, h: string)
    requires Repr(kv, c) && Repr(kv', Step(c, op)) && OpOk(op) && HostName(h)
    requires Read(kv, Host(h)) == "" && Read(kv', Host(h)) != ""
    ensures h !in c.hosts && op.Add? && op.host == h && Read(kv, Device(h, op.id)) == ""
  {
    MemberIff(kv, c, h);
    MemberIff(kv', Step(c, op), h);
    StepMembers(c, op);
  }

  lemma MemberIff(kv: Kv, c: Cluster, h: string)
    requires Repr(kv, c) && HostName(h)
    ensures Read(kv, Host(h)) != "" <==> h in c.hosts
    ensures h !in c.hosts ==> forall id :: '-' in id ==> Read(kv, Device(h, id)) == ""
  {
    HostFacts(kv, c, h);
  }

  lemma JoinedPool(c: Cluster, h: string, id: string)
    requires h !in c.hosts
    ensures h in Step(c, Add(h, id)).hosts
    ensures Step(c, Add(h, id)).hosts[h].pool == HostStep(FreshHost(SubnetIps(SubnetIndex(|c.taken|))), Allocate(id))
  {
  }

  /** It starts from the full queue of some subnet. */
  lemma FirstPool(kv: Kv, c: Cluster, h: string, id: string) returns (pool: HostState)
    requires h !in c.hosts && HostName(h) && Repr(kv, Step(c, Add(h, id)))
    ensures pool.leases == map[] && |pool.free| == 14 && !pool.blank
    ensures PoolOf(kv, h) == HostStep(pool, Allocate(id))
  {
    var i := SubnetIndex(|c.taken|);
    pool := FreshHost(SubnetIps(i));
    SubnetCount(i);
    JoinedPool(c, h, id);
    PoolOfMember(kv, Step(c, Add(h, id)), h);
  }

  lemma FirstAdd(kvs: seq<Kv>, ops: seq<Op>, n: nat, h: string) returns (pool: HostState)
    requires IsKvRun(kvs, ops) && n < |ops| && HostName(h)
    requires Read(kvs[n], Host(h)) == "" && Read(kvs[n + 1], Host(h)) != ""
    ensures Fresh(kvs, ops, n, h)
    ensures pool.leases == map[] && |pool.free| == 14 && !pool.blank
    ensures PoolOf(kvs[n + 1], h) == HostStep(pool, Allocate(ops[n].id))
  {
    var c := AbsAt(kvs, ops, n);
    GivesSubnet(kvs[n], c, ops[n], kvs[n + 1], h);
    pool := FirstPool(kvs[n + 1], c, h, ops[n].id);
  }

  lemma AbsAt(kvs: seq<Kv>, ops: seq<Op>, n: nat) returns (c: Cluster)
    requires IsKvRun(kvs, ops) && n < |ops|
    ensures OpOk(ops[n]) && Repr(kvs[n], c) && Repr(kvs[n + 1], Step(c, ops[n]))
  {
    assert KvNext(kvs, ops, n);
    c := AbsOf(kvs, ops, n);
    StepRepr(kvs[n], c, ops[n]);
  }

  /** The step at which a host got its subnet. */
  lemma {:induction false} JoinStep(kvs: seq<Kv>, ops: seq<Op>, k: nat, h: string) returns (n: nat)
    requires IsKvRun(kvs, ops) && k <= |ops| && Read(kvs[k], Host(h)) != ""
    ensures n < k && Read(kvs[n], Host(h)) == "" && Read(kvs[n + 1], Host(h)) != ""
    decreases k
  {
    FirstBlank(kvs, ops, Host(h));
    if Read(kvs[k - 1], Host(h)) == "" {
      n := k - 1;
    } else {
      n := JoinStep(kvs, ops, k - 1, h);
    }
  }

  /** An ADD for a device without a lease leaves a blank at the head exactly if it leaves nothing else;
      any other command leaves the head's blank as it was. */
  lemma {:induction false} LatestIn(pools: seq<HostState>, ops: seq<Op>, h: string, s: nat, k: nat) returns (m: nat)
    requires |pools| == |ops| + 1 && s < k <= |ops|
    requires pools[s + 1].blank <==> pools[s + 1].free == []
    requires forall n :: s < n < k ==> PoolNext(pools, ops, n, h)
    ensures s <= m < k && (m == s || FreshIn(pools, ops, m, h))
    ensures forall n :: m < n < k ==> !FreshIn(pools, ops, n, h)
    ensures pools[k].blank <==> pools[m + 1].free == []
    decreases k
  {
    if k == s + 1 {
      m := s;
    } else {
      assert PoolNext(pools, ops, k - 1, h);
      if FreshIn(pools, ops, k - 1, h) {
        m := k - 1;
      } else {
        m := LatestIn(pools, ops, h, s, k - 1);
      }
    }
  }

  /** The host's latest ADD for a device without a lease, before step k. */
  ghost predicate LatestFresh(kvs: seq<Kv>, ops: seq<Op>, m: nat, k: nat, h: string)
    requires |kvs| == |ops| + 1 && m < k <= |ops|
  {
    Fresh(kvs, ops, m, h) && forall n :: m < n < k ==> !Fresh(kvs, ops, n, h)
  }

  lemma FirstBlankless(kvs: seq<Kv>, ops: seq<Op>, n: nat, h: string) returns (pool: HostState)
    requires IsKvRun(kvs, ops) && n < |ops| && HostName(h)
    requires Read(kvs[n], Host(h)) == "" && Read(kvs[n + 1], Host(h)) != ""
    ensures Fresh(kvs, ops, n, h)
    ensures pool == PoolOf(kvs[n + 1], h) && (pool.blank <==> pool.free == [])
  {
    var full := FirstAdd(kvs, ops, n, h);
    pool := HostStep(full, Allocate(ops[n].id));
  }

  lemma LatestPools(kvs: seq<Kv>, ops: seq<Op>, k: nat, h: string) returns (m: nat, pools: seq<HostState>)
    requires IsKvRun(kvs, ops) && k <= |ops| && HostName(h) && Read(kvs[k], Host(h)) != ""
    ensures m < k && LatestFresh(kvs, ops, m, k, h) && |pools| == |kvs|
    ensures PoolAt(kvs, pools, k, h) && PoolAt(kvs, pools, m + 1, h)
    ensures pools[k].blank <==> pools[m + 1].free == []
  {
    var s;
    s, pools := PoolsSince(kvs, ops, k, h);
    m := LatestIn(pools, ops, h, s, k);
    LatestIsFresh(kvs, ops, pools, h, s, m, k);
  }

  /** The pools of a host from the step at which it got its subnet. */
  lemma PoolsSince(kvs: seq<Kv>, ops: seq<Op>, k: nat, h: string) returns (s: nat, pools: seq<HostState>)
    requires IsKvRun(kvs, ops) && k <= |ops| && HostName(h) && Read(kvs[k], Host(h)) != ""
    ensures s < k && Fresh(kvs, ops, s, h) && |pools| == |kvs|
    ensures pools[s + 1].blank <==> pools[s + 1].free == []
    ensures forall n :: s < n <= k ==> PoolAt(kvs, pools, n, h)
    ensures forall n :: s < n < k ==> PoolNext(pools, ops, n, h) && TextsAt(kvs, pools, ops, n, h)
  {
    s := JoinStep(kvs, ops, k, h);
    var pool := FirstBlankless(kvs, ops, s, h);
    pools := PoolsOf(kvs, ops, h, s + 1, k);
    SamePool(kvs, pools, s + 1, h, pool);
  }

  lemma SamePool(kvs: seq<Kv>, pools: seq<HostState>, n: nat, h: string, pool: HostState)
    requires n < |kvs| == |pools| && PoolAt(kvs, pools, n, h) && pool == PoolOf(kvs[n], h)
    ensures pools[n] == pool
  {
  }

  lemma LatestIsFresh(kvs: seq<Kv>, ops: seq<Op>, pools: seq<HostState>, h: string, s: nat, m: nat, k: nat)
    requires |kvs| == |pools| == |ops| + 1 && s <= m < k <= |ops|
    requires forall n :: s < n < k ==> TextsAt(kvs, pools, ops, n, h)
    requires Fresh(kvs, ops, s, h) && (m == s || FreshIn(pools, ops, m, h))
    requires forall n :: m < n < k ==> !FreshIn(pools, ops, n, h)
    ensures LatestFresh(kvs, ops, m, k, h)
  {
    forall n | s < n < k ensures Fresh(kvs, ops, n, h) <==> FreshIn(pools, ops, n, h) {
      NotFresh(kvs, ops, pools, n, h);
    }
  }

  /** Exactly when a host's queue has the blank at its head: if its latest ADD for a device without a
      lease left no address in the queue, whatever has been released since. */
  lemma BlankIffDrained(kvs: seq<Kv>, ops: seq<Op>, k: nat, h: string) returns (m: nat)
    requires IsKvRun(kvs, ops) && k <= |ops| && HostName(h) && Read(kvs[k], Host(h)) != ""
    ensures m < k && LatestFresh(kvs, ops, m, k, h)
    ensures Split(Read(kvs[k], HostPool(h)), ';')[0] == "" <==>
            NonBlank(Split(Read(kvs[m + 1], HostPool(h)), ';')) == []
  {
    var pools;
    m, pools := LatestPools(kvs, ops, k, h);
    BlankTexts(kvs[k], kvs[m + 1], h, pools[k], pools[m + 1]);
  }

  lemma BlankTexts(kv: Kv, kv': Kv, h: string, pool: HostState, pool': HostState)
    requires pool == PoolOf(kv, h) && pool' == PoolOf(kv', h)
    ensures pool.blank <==> Split(Read(kv, HostPool(h)), ';')[0] == ""
    ensures pool'.free == NonBlank(Split(Read(kv', HostPool(h)), ';'))
  {
  }

  // ---- a blank ahead of a free address ----

  /** Fourteen ADDs of one host drain its queue. */
  lemma {:induction false} DrainedBy(pools: seq<HostState>, ops: seq<Op>, h: string, ids: seq<string>, k: nat)
    requires |pools| == |ops| + 1 && |ids| == 14 && NoRepeats(ids) && 1 <= k <= 14 <= |ops|
    requires forall t :: 0 <= t < 14 ==> ops[t] == Add(h, ids[t])
    requires forall t :: 1 <= t < k ==> PoolNext(pools, ops, t, h)
    requires |pools[1].free| == 13 && !pools[1].blank && forall id :: id in pools[1].leases <==> id == ids[0]
    ensures |pools[k].free| == 14 - k && (pools[k].blank <==> k == 14)
    ensures forall id :: id in pools[k].leases <==> id in ids[..k]
    decreases k
  {
    assert ids[..k] == ids[..k - 1] + [ids[k - 1]];
    if k == 1 {
      assert ids[..0] == [];
    } else {
      DrainedBy(pools, ops, h, ids, k - 1);
      assert PoolNext(pools, ops, k - 1, h);
      assert ids[k - 1] !in ids[..k - 1];
    }
  }

  lemma ReleaseBehindBlank(pool: HostState, ids: seq<string>, id: string)
    requires pool.blank && pool.free == [] && |ids| == 14 && id !in ids[1..]
    requires forall x :: x in pool.leases <==> x in ids[..14]
    ensures var pool' := HostStep(pool, Release(ids[0])); pool'.blank && |pool'.free| == 1 && id !in pool'.leases
  {
    assert ids[..14] == [ids[0]] + ids[1..];
  }

  lemma AddHasSubnet(kvs: seq<Kv>, ops: seq<Op>, n: nat, h: string, id: string)
    requires IsKvRun(kvs, ops) && n < |ops| && ops[n] == Add(h, id)
    ensures HostName(h) && Read(kvs[n + 1], Host(h)) != ""
  {
    var c := AbsAt(kvs, ops, n);
    StepMembers(c, ops[n]);
    HostFacts(kvs[n + 1], Step(c, ops[n]), h);
  }

  lemma FirstOfFourteen(kvs: seq<Kv>, ops: seq<Op>, h: string, id: string)
    requires IsKvRun(kvs, ops) && |ops| > 0 && ops[0] == Add(h, id)
    ensures HostName(h) && Read(kvs[1], Host(h)) != ""
    ensures var pool := PoolOf(kvs[1], h);
            |pool.free| == 13 && !pool.blank && forall x :: x in pool.leases <==> x == id
  {
    FirstBlank(kvs, ops, Host(h));
    AddHasSubnet(kvs, ops, 0, h, id);
    var pool := FirstAdd(kvs, ops, 0, h);
  }

  lemma TextIsLease(kvs: seq<Kv>, ops: seq<Op>, k: nat, h: string, id: string)
    requires IsKvRun(kvs, ops) && k <= |ops| && HostName(h) && Read(kvs[k], Host(h)) != "" && '-' in id
    ensures Read(kvs[k], Device(h, id)) == LeaseText(PoolOf(kvs[k], h), id)
  {
    var i := PoolFacts(kvs, ops, k, h);
  }

  lemma FifteenPools(kvs: seq<Kv>, ops: seq<Op>, h: string, ids: seq<string>, id: string) returns (pool: HostState)
    requires IsKvRun(kvs, ops) && |ops| == 15 && |ids| == 14 && NoRepeats(ids)
    requires (forall t :: 0 <= t < 14 ==> ops[t] == Add(h, ids[t])) && ops[14] == Del(h, ids[0])
    requires id !in ids[1..]
    ensures HostName(h) && Read(kvs[15], Host(h)) != "" && pool == PoolOf(kvs[15], h)
    ensures pool.blank && |pool.free| == 1 && id !in pool.leases
  {
    FirstOfFourteen(kvs, ops, h, ids[0]);
    HasSubnetStill(kvs, ops, 1, 15, h);
    var pools := PoolsOf(kvs, ops, h, 1, 15);
    assert PoolAt(kvs, pools, 1, h) && PoolAt(kvs, pools, 15, h);
    DrainedBy(pools, ops, h, ids, 14);
    assert PoolNext(pools, ops, 14, h);
    ReleaseBehindBlank(pools[14], ids, id);
    pool := pools[15];
  }

  /** Fourteen ADDs of one host and the DEL of the first leave one address free behind a blank, so that
      the ADD of any device without a lease is answered none. */
  lemma BlankAheadOfFree(kvs: seq<Kv>, ops: seq<Op>, h: string, ids: seq<string>, id: string)
    requires IsKvRun(kvs, ops) && |ops| == 15 && |ids| == 14 && NoRepeats(ids)
    requires (forall t :: 0 <= t < 14 ==> ops[t] == Add(h, ids[t])) && ops[14] == Del(h, ids[0])
    requires '-' in id && id !in ids[1..]
    ensures BlankAhead(kvs[15], h, id) && |NonBlank(Split(Read(kvs[15], HostPool(h)), ';'))| == 1
  {
    var pool := FifteenPools(kvs, ops, h, ids, id);
    TextIsLease(kvs, ops, 15, h, id);
  }
}
