/** One host's address pool in etcd mode, as the queue its text stands for. Address tokens are the
    texts GetValidIps lists. A drained queue leaves the empty text, which reads as one blank token. */
module PoolQueue {
  import opened Bags
  import opened Results

  /** leases maps device ids to address tokens. */
  datatype HostState = HostState(blank: bool, free: seq<string>, leases: map<string, string>)

  datatype HostOp = Allocate(id: string) | Release(id: string)

  /** The tokens the pool text splits into. */
  function TokensOf(hs: HostState): seq<string> {
    (if hs.blank then [""] else []) + hs.free
  }

  /** Allocating hands out the head of the queue; a blank head is dropped and leases nothing. */
  function HostStep(hs: HostState, op: HostOp): HostState {
    match op
    case Allocate(id) =>
      if id in hs.leases then hs
      else if hs.blank || hs.free == [] then hs.(blank := hs.free == [])
      else HostState(|hs.free| == 1, hs.free[1..], hs.leases[id := hs.free[0]])
    case Release(id) =>
      if id in hs.leases then hs.(free := hs.free + [hs.leases[id]], leases := hs.leases - {id}) else hs
  }

  /** The address an operation hands out, and the one it takes back. */
  function HandedOut(hs: HostState, op: HostOp): Option<string> {
    if op.Allocate? && op.id !in hs.leases && !hs.blank && hs.free != [] then Some(hs.free[0]) else None
  }

  function TakenBack(hs: HostState, op: HostOp): Option<string> {
    if op.Release? && op.id in hs.leases then Some(hs.leases[op.id]) else None
  }

  // ---- conservation ----

  /** The queue text's representation invariant, and conservation: the queued tokens and the leased
      tokens together are exactly the addresses ips of the subnet. */
  ghost predicate HostInv(hs: HostState, ips: seq<string>) {
    && (hs.blank || hs.free != [])
    && multiset(hs.free) + ValuesOf(hs.leases) == multiset(ips)
  }

  /** A host's pool as it is first set up. */
  function FreshHost(ips: seq<string>): HostState {
    HostState(ips == [], ips, map[])
  }

  /** Conservation over every operation. */
  lemma HostStepKeepsInv(hs: HostState, op: HostOp, ips: seq<string>)
    requires HostInv(hs, ips)
    ensures HostInv(HostStep(hs, op), ips)
  {
    if HandedOut(hs, op).Some? {
      ValuesOfAdd(hs.leases, op.id, hs.free[0]);
      HeadAndRest(hs.free);
    } else if TakenBack(hs, op).Some? {
      ValuesOfRemove(hs.leases, op.id);
    }
  }

  lemma HeadAndRest(s: seq<string>)
    requires s != []
    ensures multiset(s) == multiset{s[0]} + multiset(s[1..])
  {
    assert s == [s[0]] + s[1..];
  }

  /** Each address of the subnet is queued once or leased to exactly one device, never both. */
  lemma FreeOrLeasedOnce(hs: HostState, a: string, ips: seq<string>)
    requires HostInv(hs, ips) && NoRepeats(ips) && a in ips
    ensures a in hs.free <==> !exists id :: id in hs.leases && hs.leases[id] == a
    ensures forall i, j :: 0 <= i < j < |hs.free| ==> !(hs.free[i] == hs.free[j] == a)
    ensures forall x, y :: x in hs.leases && y in hs.leases && hs.leases[x] == hs.leases[y] == a ==> x == y
  {
    NoRepeatsOnce(ips, a);
    assert (multiset(hs.free) + ValuesOf(hs.leases))[a] == 1;
    ValuesOfIn(hs.leases, a);
    forall i, j | 0 <= i < j < |hs.free| ensures !(hs.free[i] == hs.free[j] == a) {
      if hs.free[i] == hs.free[j] == a {
        RepeatedTwice(hs.free, i, j);
      }
    }
    forall x, y | x in hs.leases && y in hs.leases && hs.leases[x] == hs.leases[y] == a ensures x == y {
      if x != y {
        SameValueTwice(hs.leases, x, y);
      }
    }
  }

  lemma OnlyValid(hs: HostState, a: string, ips: seq<string>)
    requires HostInv(hs, ips)
    ensures a in hs.free ==> a in ips
    ensures (exists id :: id in hs.leases && hs.leases[id] == a) ==> a in ips
  {
    ValuesOfIn(hs.leases, a);
    assert a in multiset(hs.free) + ValuesOf(hs.leases) <==> a in multiset(ips);
  }

  // ---- first in, first out ----

  function Items(a: Option<string>): seq<string> {
    if a.Some? then [a.value] else []
  }

  type Moves = seq<Option<string>>

  /** One step of a queue: it hands out at the front or takes back at the end, or neither. */
  predicate Moved(queue: seq<string>, out: Option<string>, back: Option<string>, queue': seq<string>) {
    (out.None? || back.None?) && Items(out) + queue' == queue + Items(back)
  }

  lemma MovedBack(queue: seq<string>, out: Option<string>, a: string, queue': seq<string>)
    requires Moved(queue, out, Some(a), queue')
    ensures queue' == queue + [a]
  {
    assert Items(out) + queue' == queue';
  }

  lemma MovedOut(queue: seq<string>, a: string, back: Option<string>, queue': seq<string>)
    requires Moved(queue, Some(a), back, queue')
    ensures queue != [] && queue[0] == a && queue[1..] == queue'
  {
    assert queue + Items(back) == queue;
    assert queue == [a] + queue';
  }

  /** Every operation of a host's pool is such a step. */
  lemma StepKeepsOrder(hs: HostState, op: HostOp)
    ensures Moved(hs.free, HandedOut(hs, op), TakenBack(hs, op), HostStep(hs, op).free)
  {
  }

  /** A queue over time: step k turns queues[k] into queues[k + 1], handing out outs[k] and taking back
      backs[k]. */
  ghost predicate Ordered(queues: seq<seq<string>>, outs: Moves, backs: Moves, i: nat, j: nat) {
    && |queues| == |outs| + 1 == |backs| + 1 && i <= j <= |outs|
    && forall k :: i <= k < j ==> Moved(queues[k], outs[k], backs[k], queues[k + 1])
  }

  /** The addresses among steps i to j, in order. */
  ghost function Log(moves: Moves, i: nat, j: nat): seq<string>
    requires i <= j <= |moves|
    decreases j
  {
    if i == j then [] else Log(moves, i, j - 1) + Items(moves[j - 1])
  }

  /** The log lists exactly the addresses that some step moves. */
  lemma {:induction false} InLog(moves: Moves, i: nat, j: nat, a: string)
    requires i <= j <= |moves|
    ensures a in Log(moves, i, j) <==> exists m :: i <= m < j && moves[m] == Some(a)
    decreases j
  {
    if i < j {
      var before, last := Log(moves, i, j - 1), moves[j - 1];
      InLog(moves, i, j - 1, a);
      assert a in before + Items(last) <==> a in before || last == Some(a);
    }
  }

  /** What is handed out, then what is still queued, is what was queued at first, then what was taken back. */
  lemma {:induction false} LogLaw(queues: seq<seq<string>>, outs: Moves, backs: Moves, i: nat, j: nat)
    requires Ordered(queues, outs, backs, i, j)
    ensures Log(outs, i, j) + queues[j] == queues[i] + Log(backs, i, j)
    decreases j
  {
    if i < j {
      LogLaw(queues, outs, backs, i, j - 1);
      Chain(Log(outs, i, j - 1), queues[j - 1], queues[i], Log(backs, i, j - 1),
            Items(outs[j - 1]), queues[j - 1 + 1], Items(backs[j - 1]));
    }
  }

  lemma Chain<T>(outs: seq<T>, free: seq<T>, first: seq<T>, backs: seq<T>, out: seq<T>, free': seq<T>, back: seq<T>)
    requires outs + free == first + backs && out + free' == free + back
    ensures (outs + out) + free' == first + (backs + back)
  {
    assert (outs + out) + free' == outs + (out + free');
    assert outs + (free + back) == (outs + free) + back;
    assert (first + backs) + back == first + (backs + back);
  }

  /** Step j is the first after step i that hands out a. */
  ghost predicate NextOf(outs: Moves, a: string, i: nat, j: nat)
    requires i < j < |outs|
  {
    outs[j] == Some(a) && forall m :: i < m < j ==> outs[m] != Some(a)
  }

  /** An address taken back when it was not queued, and handed out again first at step j: what lies
      between is the queue it was put behind. */
  lemma BackGoesLast(queues: seq<seq<string>>, outs: Moves, backs: Moves, i: nat, j: nat, a: string)
    requires i < j && j < |outs| && Ordered(queues, outs, backs, i, j + 1)
    requires backs[i] == Some(a) && a !in queues[i] && NextOf(outs, a, i, j)
    ensures Log(outs, i + 1, j) == queues[i]
  {
    LogLaw(queues, outs, backs, i + 1, j);
    InLog(outs, i + 1, j, a);
    MovedBack(queues[i], outs[i], a, queues[i + 1]);
    MovedOut(queues[j], a, backs[j], queues[j + 1]);
    FirstAt(queues[i], a, Log(backs, i + 1, j), Log(outs, i + 1, j), queues[j]);
  }

  /** The first a of a list splits it in one way only. */
  lemma FirstAt<T>(before: seq<T>, a: T, after: seq<T>, out: seq<T>, rest: seq<T>)
    requires before + [a] + after == out + rest
    requires a !in before && a !in out && rest != [] && rest[0] == a
    ensures out == before
  {
    var all := out + rest;
    assert all[|out|] == a && all[|before|] == a;
    assert forall i :: 0 <= i < |out| ==> all[i] == out[i];
    assert forall i :: 0 <= i < |before| ==> all[i] == before[i];
    assert out == all[..|out|] && before == all[..|before|];
  }
}
