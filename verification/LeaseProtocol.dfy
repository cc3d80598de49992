/** Any number of plugin processes sharing one lease file under a shared/exclusive file lock.
    Each process keeps its own copy of the table; the steps of its critical section interleave freely
    with those of the others, as far as the lock lets them. */
module LeaseProtocol {
  import opened AddressRing
  import opened LeaseRuns
  import opened LeaseStore
  import opened LeaseTable
  import opened Results
  import opened Runs

  /** Where a process is in its current operation. */
  datatype Phase =
    | Idle
    | Waiting(op: Op)
    | Holding(op: Op)                              // has the lock, has not read the file
    | SawAbsent(op: Op)                            // found no file, is about to create it
    | Created(op: Op)                              // has created or truncated it, is about to write "{}"
    | Loaded(op: Op, local: Data)
    | Writing(op: Op, local: Data, reply: Reply)   // has truncated the file, is about to write its copy
    | Finished(op: Op, reply: Reply)
  {
    predicate InLock() {
      !Idle? && !Waiting?
    }
  }

  /** Took marks the moment an operation takes effect; it is a proof device, not a program step. */
  datatype Event = Invoked(p: nat, op: Op) | Took(p: nat, op: Op, reply: Reply) | Returned(p: nat, op: Op, reply: Reply)

  /** tables records the atomic table after every Took of the history. */
  datatype State = State(
    file: FileState, readers: set<nat>, writer: Option<nat>, procs: map<nat, Phase>,
    history: seq<Event>, tables: seq<Data>)

  const INIT: State := State(Absent, {}, None, map[], [], [EMPTY])

  function PhaseOf(s: State, p: nat): Phase {
    if p in s.procs then s.procs[p] else Idle
  }

  datatype Label =
    | Invoke(p: nat, op: Op) | Acquire(p: nat) | Read(p: nat) | Create(p: nat)
    | WriteEmpty(p: nat) | Compute(p: nat) | WriteData(p: nat) | Unlock(p: nat)

  function Goto(s: State, p: nat, phase: Phase): State {
    s.(procs := s.procs[p := phase])
  }

  /** One step of one process; None where the process cannot take it. */
  ghost function Step(r: Ring, s: State, l: Label): Option<State> {
    var p := l.p;
    var phase := PhaseOf(s, p);
    match l
    case Invoke(_, op) =>
      if phase.Idle? then Some(Goto(s, p, Waiting(op)).(history := s.history + [Invoked(p, op)])) else None
    case Acquire(_) =>
      if !phase.Waiting? || s.writer.Some? then None
      else if phase.op.Check? then Some(Goto(s, p, Holding(phase.op)).(readers := s.readers + {p}))
      else if s.readers == {} then Some(Goto(s, p, Holding(phase.op)).(writer := Some(p)))
      else None
    case Read(_) =>
      if !phase.Holding? then None
      else
        (match s.file
         case Absent => Some(Goto(s, p, SawAbsent(phase.op)))
         case Content(d) => Some(Goto(s, p, Loaded(phase.op, d)))
         case Partial =>
           var failed := Failed(BadJson);
           Some(TakeEffect(Goto(s, p, Finished(phase.op, failed)), p, phase.op, failed, Abs(s))))
    case Create(_) =>
      if phase.SawAbsent? then Some(Goto(s, p, Created(phase.op)).(file := Partial)) else None
    case WriteEmpty(_) =>
      if phase.Created? then Some(Goto(s, p, Loaded(phase.op, EMPTY)).(file := Content(EMPTY))) else None
    case Compute(_) =>
      if !phase.Loaded? || !Inv(r, phase.local) then None
      else
        var (d, reply) := Apply(r, phase.local, phase.op);
        var next := if d == phase.local then Goto(s, p, Finished(phase.op, reply))
                    else Goto(s, p, Writing(phase.op, d, reply)).(file := Partial);
        Some(TakeEffect(next, p, phase.op, reply, d))
    case WriteData(_) =>
      if phase.Writing? then Some(Goto(s, p, Finished(phase.op, phase.reply)).(file := Content(phase.local))) else None
    case Unlock(_) =>
      if phase.Finished? then
        Some(Goto(s, p, Idle).(
             readers := s.readers - {p},
             writer := if s.writer == Some(p) then None else s.writer,
             history := s.history + [Returned(p, phase.op, phase.reply)]))
      else None
  }

  function TakeEffect(s: State, p: nat, op: Op, reply: Reply, d: Data): State {
    s.(history := s.history + [Took(p, op, reply)], tables := s.tables + [d])
  }

  /** The atomic table a state stands for: the file's, or what a writer is about to put there. */
  function Abs(s: State): Data {
    if s.writer.Some? && PhaseOf(s, s.writer.value).Writing? then PhaseOf(s, s.writer.value).local
    else if s.file.Content? then s.file.data
    else EMPTY
  }

  ghost predicate IsExecution(r: Ring, states: seq<State>, labels: seq<Label>) {
    && r.Wf()
    && |states| == |labels| + 1
    && states[0] == INIT
    && forall k :: 0 <= k < |labels| ==> Step(r, states[k], labels[k]) == Some(states[k + 1])
  }

  // ---- the invariant of every interleaving ----

  ghost predicate LockInv(s: State) {
    && (s.writer.Some? ==> s.readers == {})
    && (forall p: nat :: p in s.readers <==> PhaseOf(s, p).InLock() && PhaseOf(s, p).op.Check?)
    && (forall p: nat :: s.writer == Some(p) <==> PhaseOf(s, p).InLock() && !PhaseOf(s, p).op.Check?)
    && (forall p: nat :: PhaseOf(s, p).Writing? ==> !PhaseOf(s, p).op.Check?)
  }

  ghost predicate FileInv(s: State) {
    && (forall p: nat :: PhaseOf(s, p).SawAbsent? || PhaseOf(s, p).Created? ==> Abs(s) == EMPTY)
    && (s.file.Partial? ==> exists p :: PhaseOf(s, p).Created? || PhaseOf(s, p).Writing?)
    && (forall p: nat :: PhaseOf(s, p).Loaded? ==> PhaseOf(s, p).local == Abs(s))
  }

  ghost predicate Safe(r: Ring, s: State) {
    Inv(r, Abs(s)) && LockInv(s) && FileInv(s)
  }

  /** Between two operations taking effect the atomic table stays put, and an operation taking effect
      changes it as the atomic operation does. */
  lemma SafeStep(r: Ring, s: State, l: Label, s': State)
    requires Safe(r, s) && Step(r, s, l) == Some(s')
    ensures Safe(r, s')
    ensures !l.Compute? ==> Abs(s') == Abs(s)
    ensures l.Compute? ==> Abs(s') == Apply(r, Abs(s), PhaseOf(s, l.p).op).0
  {
    match l
    case Invoke(_, _) => QuietStep(r, s, l, s');
    case Acquire(_) => QuietStep(r, s, l, s');
    case Read(_) => ReadStep(r, s, l, s');
    case Create(_) => BootstrapStep(r, s, l, s');
    case WriteEmpty(_) => BootstrapStep(r, s, l, s');
    case Compute(_) => ComputeStep(r, s, l, s');
    case WriteData(_) => WriteStep(r, s, l, s');
    case Unlock(_) => QuietStep(r, s, l, s');
  }

  lemma OthersStay(r: Ring, s: State, l: Label, s': State)
    requires Step(r, s, l) == Some(s')
    ensures forall q :: q != l.p ==> PhaseOf(s', q) == PhaseOf(s, q)
  {
  }

  lemma QuietStep(r: Ring, s: State, l: Label, s': State)
    requires Safe(r, s) && Step(r, s, l) == Some(s') && (l.Invoke? || l.Acquire? || l.Unlock?)
    ensures Safe(r, s') && Abs(s') == Abs(s)
  {
    OthersStay(r, s, l, s');
    if s.file.Partial? {
      var q :| PhaseOf(s, q).Created? || PhaseOf(s, q).Writing?;
      assert PhaseOf(s', q) == PhaseOf(s, q);
    }
  }

  lemma ReadStep(r: Ring, s: State, l: Label, s': State)
    requires Safe(r, s) && l.Read? && Step(r, s, l) == Some(s')
    ensures Safe(r, s') && Abs(s') == Abs(s)
  {
    OthersStay(r, s, l, s');
    if s.file.Partial? {
      var q :| PhaseOf(s, q).Created? || PhaseOf(s, q).Writing?;
      assert PhaseOf(s', q) == PhaseOf(s, q);
    }
  }

  lemma BootstrapStep(r: Ring, s: State, l: Label, s': State)
    requires Safe(r, s) && (l.Create? || l.WriteEmpty?) && Step(r, s, l) == Some(s')
    ensures Safe(r, s') && Abs(s') == Abs(s)
  {
    OthersStay(r, s, l, s');
    assert Abs(s) == EMPTY;
    assert l.Create? ==> PhaseOf(s', l.p).Created?;
  }

  lemma ComputeStep(r: Ring, s: State, l: Label, s': State)
    requires Safe(r, s) && l.Compute? && Step(r, s, l) == Some(s')
    ensures Safe(r, s') && Abs(s') == Apply(r, Abs(s), PhaseOf(s, l.p).op).0
  {
    OthersStay(r, s, l, s');
    var op := PhaseOf(s, l.p).op;
    ApplyKeepsInv(r, Abs(s), op);
    if PhaseOf(s', l.p).Writing? {
      assert s.writer == Some(l.p);
    } else if s.file.Partial? {
      var q :| PhaseOf(s, q).Created? || PhaseOf(s, q).Writing?;
      assert PhaseOf(s', q) == PhaseOf(s, q);
    }
  }

  lemma WriteStep(r: Ring, s: State, l: Label, s': State)
    requires Safe(r, s) && l.WriteData? && Step(r, s, l) == Some(s')
    ensures Safe(r, s') && Abs(s') == Abs(s)
  {
    OthersStay(r, s, l, s');
    assert s.writer == Some(l.p);
  }

  lemma {:induction false} ExecutionSafe(r: Ring, states: seq<State>, labels: seq<Label>, k: nat)
    requires IsExecution(r, states, labels) && k <= |labels|
    ensures Safe(r, states[k])
  {
    if k == 0 {
      EmptyInv(r);
    } else {
      ExecutionSafe(r, states, labels, k - 1);
      SafeStep(r, states[k - 1], labels[k - 1], states[k - 1 + 1]);
    }
  }

  // ---- bootstrap safety ----

  /** No step of any interleaving erases a lease, other than the DEL of its container taking effect. */
  lemma NoLeaseErased(r: Ring, states: seq<State>, labels: seq<Label>, k: nat, ip: nat, id: string)
    requires IsExecution(r, states, labels) && k < |labels|
    requires Holds(Abs(states[k]), ip, id)
    requires var phase := PhaseOf(states[k], labels[k].p);
             !(labels[k].Compute? && phase.Loaded? && phase.op == Del(id))
    ensures Holds(Abs(states[k + 1]), ip, id)
  {
    ExecutionSafe(r, states, labels, k);
    SafeStep(r, states[k], labels[k], states[k + 1]);
    if labels[k].Compute? {
      LeaseStep(r, Abs(states[k]), PhaseOf(states[k], labels[k].p).op, ip, id);
    }
  }

  /** A file cut short is only ever read by a CHECK, and only while there is no lease to lose. */
  lemma PartialReadHarmless(r: Ring, states: seq<State>, labels: seq<Label>, k: nat)
    requires IsExecution(r, states, labels) && k < |labels|
    requires labels[k].Read? && states[k].file.Partial?
    ensures PhaseOf(states[k], labels[k].p).Holding? && PhaseOf(states[k], labels[k].p).op.Check?
    ensures Abs(states[k]) == EMPTY
  {
    ExecutionSafe(r, states, labels, k);
    assert Step(r, states[k], labels[k]) == Some(states[k + 1]);
    PartialRead(states[k], labels[k].p);
  }

  lemma PartialRead(s: State, p: nat)
    requires LockInv(s) && FileInv(s) && PhaseOf(s, p).Holding? && s.file.Partial?
    ensures PhaseOf(s, p).op.Check? && Abs(s) == EMPTY
  {
    var q :| PhaseOf(s, q).Created? || PhaseOf(s, q).Writing?;
    assert s.writer == Some(p) ==> q == p;
    assert p in s.readers;
  }

  // ---- linearizability ----

  /** Where a process stands according to the history alone. */
  datatype Stage = NotIn | Open(op: Op) | Answered(op: Op, reply: Reply) | Broken

  function StageOf(history: seq<Event>, p: nat): Stage {
    if history == [] then NotIn
    else
      var before := StageOf(history[..|history| - 1], p);
      var e := history[|history| - 1];
      if e.p != p then before
      else
        match e
        case Invoked(_, op) => if before == NotIn then Open(op) else Broken
        case Took(_, op, reply) => if before == Open(op) then Answered(op, reply) else Broken
        case Returned(_, op, reply) => if before == Answered(op, reply) then NotIn else Broken
  }

  function StageOfPhase(phase: Phase): Stage {
    match phase
    case Idle => NotIn
    case Writing(op, _, reply) => Answered(op, reply)
    case Finished(op, reply) => Answered(op, reply)
    case _ => Open(phase.op)
  }

  function Ops(history: seq<Event>): seq<Op> {
    if history == [] then []
    else
      var e := history[|history| - 1];
      Ops(history[..|history| - 1]) + (if e.Took? then [e.op] else [])
  }

  function Replies(history: seq<Event>): (replies: seq<Reply>)
    ensures |replies| == |Ops(history)|
  {
    if history == [] then []
    else
      var e := history[|history| - 1];
      Replies(history[..|history| - 1]) + (if e.Took? then [e.reply] else [])
  }

  /** The actual answer is the atomic one; a CHECK of a container without a lease may report the
      unreadable file instead of the missing lease. */
  predicate Agrees(actual: Reply, atomic: Reply) {
    actual == atomic || (actual == Failed(BadJson) && atomic == Failed(NotFound))
  }

  ghost predicate Explains(r: Ring, tables: seq<Data>, ops: seq<Op>, replies: seq<Reply>)
    requires |replies| == |ops|
  {
    && IsRun(r, tables, ops)
    && tables[0] == EMPTY
    && forall k :: 0 <= k < |ops| ==>
         Next(r, tables[k], ops[k], tables[k + 1]) && Agrees(replies[k], Apply(r, tables[k], ops[k]).1)
  }

  /** Every process runs Invoked, Took, Returned over and over, and the operations, in the order they
      took effect, form a run of the atomic table with these answers. As each Took lies between its own
      Invoked and Returned, that order respects the order of operations that do not overlap. */
  ghost predicate Linearizable(r: Ring, history: seq<Event>) {
    && (forall p: nat :: !StageOf(history, p).Broken?)
    && exists tables :: Explains(r, tables, Ops(history), Replies(history))
  }

  ghost predicate Recorded(r: Ring, s: State) {
    && (forall p: nat :: StageOf(s.history, p) == StageOfPhase(PhaseOf(s, p)))
    && Explains(r, s.tables, Ops(s.history), Replies(s.history))
    && s.tables[|s.tables| - 1] == Abs(s)
  }

  lemma StageAfter(history: seq<Event>, e: Event)
    ensures forall p :: p != e.p ==> StageOf(history + [e], p) == StageOf(history, p)
    ensures StageOf(history + [e], e.p) ==
            match e
            case Invoked(_, op) => if StageOf(history, e.p) == NotIn then Open(op) else Broken
            case Took(_, op, reply) => if StageOf(history, e.p) == Open(op) then Answered(op, reply) else Broken
            case Returned(_, op, reply) => if StageOf(history, e.p) == Answered(op, reply) then NotIn else Broken
    ensures Ops(history + [e]) == Ops(history) + (if e.Took? then [e.op] else [])
    ensures Replies(history + [e]) == Replies(history) + (if e.Took? then [e.reply] else [])
  {
    assert (history + [e])[..|history + [e]| - 1] == history;
  }

  lemma ExplainsOneMore(r: Ring, tables: seq<Data>, ops: seq<Op>, replies: seq<Reply>, op: Op, reply: Reply, d: Data)
    requires |replies| == |ops| && Explains(r, tables, ops, replies)
    requires Next(r, tables[|ops|], op, d) && Agrees(reply, Apply(r, tables[|ops|], op).1)
    ensures Explains(r, tables + [d], ops + [op], replies + [reply])
  {
    var tables', ops' := tables + [d], ops + [op];
    forall k | 0 <= k < |ops'|
      ensures Next(r, tables'[k], ops'[k], tables'[k + 1])
      ensures Agrees((replies + [reply])[k], Apply(r, tables'[k], ops'[k]).1)
    {
      if k < |ops| {
        assert Next(r, tables[k], ops[k], tables[k + 1]);
      }
    }
  }

  /** p moves on without taking effect; the history gains at most an Invoked or a Returned of p. */
  lemma RecordMove(r: Ring, s: State, s': State, p: nat, e: Option<Event>)
    requires Recorded(r, s) && Abs(s') == Abs(s) && s'.tables == s.tables
    requires forall q: nat :: q != p ==> PhaseOf(s', q) == PhaseOf(s, q)
    requires e.Some? ==> e.value.p == p && !e.value.Took? && s'.history == s.history + [e.value]
    requires e.None? ==> s'.history == s.history
    requires StageOf(s'.history, p) == StageOfPhase(PhaseOf(s', p))
    ensures Recorded(r, s')
  {
    if e.Some? {
      StageAfter(s.history, e.value);
    }
  }

  lemma RecordEffect(r: Ring, s: State, s': State, p: nat, op: Op, reply: Reply)
    requires Recorded(r, s) && Next(r, Abs(s), op, Abs(s')) && Agrees(reply, Apply(r, Abs(s), op).1)
    requires s'.history == s.history + [Took(p, op, reply)] && s'.tables == s.tables + [Abs(s')]
    requires forall q: nat :: q != p ==> PhaseOf(s', q) == PhaseOf(s, q)
    requires StageOfPhase(PhaseOf(s, p)) == Open(op) && StageOfPhase(PhaseOf(s', p)) == Answered(op, reply)
    ensures Recorded(r, s')
  {
    StageAfter(s.history, Took(p, op, reply));
    ExplainsOneMore(r, s.tables, Ops(s.history), Replies(s.history), op, reply, Abs(s'));
  }

  lemma RecordCompute(r: Ring, s: State, p: nat, s': State)
    requires Safe(r, s) && Recorded(r, s) && Step(r, s, Compute(p)) == Some(s')
    ensures Recorded(r, s')
  {
    OthersStay(r, s, Compute(p), s');
    ComputeStep(r, s, Compute(p), s');
    var phase := PhaseOf(s, p);
    var (d, reply) := Apply(r, phase.local, phase.op);
    assert Abs(s') == d && s'.history == s.history + [Took(p, phase.op, reply)] && s'.tables == s.tables + [d];
    assert StageOfPhase(PhaseOf(s', p)) == Answered(phase.op, reply);
    RecordEffect(r, s, s', p, phase.op, reply);
  }

  lemma RecordRead(r: Ring, s: State, p: nat, s': State)
    requires Safe(r, s) && Recorded(r, s) && Step(r, s, Read(p)) == Some(s')
    ensures Recorded(r, s')
  {
    OthersStay(r, s, Read(p), s');
    ReadStep(r, s, Read(p), s');
    var op := PhaseOf(s, p).op;
    assert StageOf(s.history, p) == StageOfPhase(PhaseOf(s, p)) == Open(op);
    if s.file.Partial? {
      PartialRead(s, p);
      assert Apply(r, EMPTY, op) == (EMPTY, Failed(NotFound));
      RecordEffect(r, s, s', p, op, Failed(BadJson));
    } else {
      RecordMove(r, s, s', p, None);
    }
  }

  lemma RecordEnds(r: Ring, s: State, l: Label, s': State)
    requires Safe(r, s) && Recorded(r, s) && (l.Invoke? || l.Unlock?) && Step(r, s, l) == Some(s')
    ensures Recorded(r, s')
  {
    OthersStay(r, s, l, s');
    QuietStep(r, s, l, s');
    var phase := PhaseOf(s, l.p);
    assert StageOf(s.history, l.p) == StageOfPhase(phase);
    var e := if l.Invoke? then Invoked(l.p, l.op) else Returned(l.p, phase.op, phase.reply);
    StageAfter(s.history, e);
    RecordMove(r, s, s', l.p, Some(e));
  }

  lemma RecordedStep(r: Ring, s: State, l: Label, s': State)
    requires Safe(r, s) && Recorded(r, s) && Step(r, s, l) == Some(s')
    ensures Recorded(r, s')
  {
    match l
    case Invoke(_, _) => RecordEnds(r, s, l, s');
    case Unlock(_) => RecordEnds(r, s, l, s');
    case Compute(p) => RecordCompute(r, s, p, s');
    case Read(p) => RecordRead(r, s, p, s');
    case _ =>
      OthersStay(r, s, l, s');
      SafeStep(r, s, l, s');
      assert StageOf(s.history, l.p) == StageOfPhase(PhaseOf(s, l.p));
      RecordMove(r, s, s', l.p, None);
  }

  lemma InitRecorded(r: Ring)
    requires r.Wf()
    ensures Recorded(r, INIT)
  {
    EmptyInv(r);
  }

  lemma ExecutionRecorded(r: Ring, states: seq<State>, labels: seq<Label>, k: nat)
    requires IsExecution(r, states, labels) && k <= |labels|
    ensures Safe(r, states[k]) && Recorded(r, states[k])
  {
    InitRecorded(r);
    forall i | 0 <= i < |labels| ensures Safe(r, states[i]) && (Recorded(r, states[i]) ==> Recorded(r, states[i + 1])) {
      ExecutionSafe(r, states, labels, i);
      assert Step(r, states[i], labels[i]) == Some(states[i + 1]);
      if Recorded(r, states[i]) {
        RecordedStep(r, states[i], labels[i], states[i + 1]);
      }
    }
    HoldsThroughout(seq(|states|, i requires 0 <= i < |states| => Recorded(r, states[i])), k);
    ExecutionSafe(r, states, labels, k);
  }

  /** Linearizability: every interleaving of any number of processes behaves as the atomic lease table. */
  lemma EveryExecutionLinearizable(r: Ring, states: seq<State>, labels: seq<Label>, k: nat)
    requires IsExecution(r, states, labels) && k <= |labels|
    ensures Linearizable(r, states[k].history)
  {
    ExecutionRecorded(r, states, labels, k);
    var s := states[k];
    forall p ensures !StageOf(s.history, p).Broken? {
      assert StageOf(s.history, p) == StageOfPhase(PhaseOf(s, p));
    }
    assert Explains(r, s.tables, Ops(s.history), Replies(s.history));
  }

  /** In every interleaving, two containers are answered the same address only if the DEL of the first
      took effect in between. */
  lemma NoSharedAddress(r: Ring, states: seq<State>, labels: seq<Label>, n: nat, i: nat, j: nat, ip: nat)
    requires IsExecution(r, states, labels) && n <= |labels|
    requires i < j < |Ops(states[n].history)|
    requires Ops(states[n].history)[i].id != Ops(states[n].history)[j].id
    requires Replies(states[n].history)[i] == Replies(states[n].history)[j] == Granted(ip)
    ensures exists k :: i < k < j && Ops(states[n].history)[k] == Del(Ops(states[n].history)[i].id)
  {
    ExecutionRecorded(r, states, labels, n);
    var s := states[n];
    var ops, replies := Ops(s.history), Replies(s.history);
    assert Next(r, s.tables[i], ops[i], s.tables[i + 1]) && Agrees(replies[i], Apply(r, s.tables[i], ops[i]).1);
    assert Next(r, s.tables[j], ops[j], s.tables[j + 1]) && Agrees(replies[j], Apply(r, s.tables[j], ops[j]).1);
    Exclusive(r, s.tables, ops, i, j, ip);
  }

  /** The operations of every interleaving, in the order they took effect, form a run of the atomic table
      that ends in the table the file stands for, so the reuse distance holds for them too. */
  lemma InterleavingIsRun(r: Ring, states: seq<State>, labels: seq<Label>, n: nat)
    requires IsExecution(r, states, labels) && n <= |labels|
    ensures var s := states[n];
            IsRun(r, s.tables, Ops(s.history)) && s.tables[0] == EMPTY && s.tables[|Ops(s.history)|] == Abs(s)
  {
    ExecutionRecorded(r, states, labels, n);
  }

  /** The reuse distance in every interleaving, whose tables and operations are always a run. */
  lemma ReuseDistanceInterleaved(r: Ring, states: seq<State>, labels: seq<Label>, n: nat, i: nat, j: nat, a: nat)
    requires IsExecution(r, states, labels) && n <= |labels| && i < j < |Ops(states[n].history)|
    ensures IsRun(r, states[n].tables, Ops(states[n].history))
    ensures var tables, gs := states[n].tables, GrantsOf(r, states[n].tables, Ops(states[n].history));
            gs[i] == gs[j] == Some(a) ==>
              && (forall b :: r.Has(b) && b != a ==> b in tables[i].ips || GrantedWithin(gs, i + 1, j, b))
              && Grants(gs, i + 1, j) >= r.N() - 1 - |tables[i].ips|
  {
    InterleavingIsRun(r, states, labels, n);
    var tables, ops := states[n].tables, Ops(states[n].history);
    if GrantsOf(r, tables, ops)[i] == GrantsOf(r, tables, ops)[j] == Some(a) {
      ReuseDistance(r, tables, ops, i, j, a);
    }
  }

  // ---- progress ----

  /** No reachable state is stuck: while some process is in an operation, some process can go on. */
  lemma NeverStuck(r: Ring, states: seq<State>, labels: seq<Label>, k: nat, p: nat)
    requires IsExecution(r, states, labels) && k <= |labels| && !PhaseOf(states[k], p).Idle?
    ensures exists l: Label :: !l.Invoke? && Step(r, states[k], l).Some?
  {
    ExecutionSafe(r, states, labels, k);
    var s := states[k];
    if PhaseOf(s, p).InLock() {
      HolderCanStep(r, s, p);
    } else if s.writer.Some? {
      HolderCanStep(r, s, s.writer.value);
    } else if s.readers != {} {
      var q :| q in s.readers;
      HolderCanStep(r, s, q);
    } else {
      assert Step(r, s, Acquire(p)).Some?;
    }
  }

  lemma HolderCanStep(r: Ring, s: State, p: nat)
    requires Safe(r, s) && PhaseOf(s, p).InLock()
    ensures exists l: Label :: l.p == p && !l.Invoke? && Step(r, s, l).Some?
  {
    var l := match PhaseOf(s, p)
      case Holding(_) => Read(p)
      case SawAbsent(_) => Create(p)
      case Created(_) => WriteEmpty(p)
      case Loaded(_, _) => Compute(p)
      case Writing(_, _, _) => WriteData(p)
      case _ => Unlock(p);
    assert Step(r, s, l).Some?;
  }

  /** What can happen in every reachable state: an idle process can start any operation, a waiting CHECK
      gets the lock exactly while nobody writes, a waiting ADD or DEL exactly while nobody holds it, and a
      process that holds it can always go on. */
  lemma WhoCanStep(r: Ring, states: seq<State>, labels: seq<Label>, k: nat, p: nat, op: Op)
    requires IsExecution(r, states, labels) && k <= |labels|
    ensures var s, phase := states[k], PhaseOf(states[k], p);
            && (phase.Idle? <==> Step(r, s, Invoke(p, op)).Some?)
            && (phase.Waiting? && phase.op.Check? ==> (Step(r, s, Acquire(p)).Some? <==> s.writer.None?))
            && (phase.Waiting? && !phase.op.Check? ==>
                  (Step(r, s, Acquire(p)).Some? <==> forall q: nat :: !PhaseOf(s, q).InLock()))
            && (phase.InLock() ==> exists l: Label :: l.p == p && !l.Invoke? && Step(r, s, l).Some?)
  {
    ExecutionSafe(r, states, labels, k);
    var s := states[k];
    if PhaseOf(s, p).InLock() {
      HolderCanStep(r, s, p);
    }
    LockIsFreeIff(s);
  }

  lemma LockIsFreeIff(s: State)
    requires LockInv(s)
    ensures s.writer.None? && s.readers == {} <==> forall q: nat :: !PhaseOf(s, q).InLock()
  {
    if s.writer.Some? {
      assert PhaseOf(s, s.writer.value).InLock();
    }
    if s.readers != {} {
      var q :| q in s.readers;
      assert PhaseOf(s, q).InLock();
    }
  }

  // ---- every sequence of operations happens ----

  /** Nobody is in an operation, and the file is missing or whole. */
  ghost predicate Rests(r: Ring, s: State) {
    && (forall p: nat :: PhaseOf(s, p).Idle?) && s.readers == {} && s.writer.None?
    && (s.file.Absent? || (s.file.Content? && Inv(r, s.file.data)))
  }

  /** Only p is in an operation, and only p can have the lock. */
  ghost predicate OnlyIn(s: State, p: nat) {
    && (forall q: nat :: q != p ==> PhaseOf(s, q).Idle?)
    && s.readers <= {p} && (s.writer.Some? ==> s.writer == Some(p))
  }

  /** A step of p alone, at the end of an execution. */
  lemma OneMore(r: Ring, states: seq<State>, labels: seq<Label>, l: Label)
    returns (states': seq<State>, labels': seq<Label>)
    requires IsExecution(r, states, labels) && OnlyIn(states[|labels|], l.p)
    requires Step(r, states[|labels|], l).Some?
    ensures IsExecution(r, states', labels') && OnlyIn(states'[|labels'|], l.p)
    ensures Step(r, states[|labels|], l) == Some(states'[|labels'|])
  {
    states', labels' := states + [Step(r, states[|labels|], l).value], labels + [l];
    OthersStay(r, states[|labels|], l, states'[|labels'|]);
  }

  /** p alone is in an operation; the file and the operations that took effect so far are these. */
  ghost predicate InOp(s: State, p: nat, phase: Phase, file: FileState, ops: seq<Op>) {
    OnlyIn(s, p) && PhaseOf(s, p) == phase && s.file == file && Ops(s.history) == ops
  }

  lemma Starts(r: Ring, states: seq<State>, labels: seq<Label>, p: nat, op: Op)
    returns (states': seq<State>, labels': seq<Label>)
    requires IsExecution(r, states, labels) && Rests(r, states[|labels|])
    ensures IsExecution(r, states', labels')
    ensures InOp(states'[|labels'|], p, Holding(op), states[|labels|].file, Ops(states[|labels|].history))
  {
    StageAfter(states[|labels|].history, Invoked(p, op));
    states', labels' := OneMore(r, states, labels, Invoke(p, op));
    states', labels' := OneMore(r, states', labels', Acquire(p));
  }

  /** The process reads the file, which it creates with the empty table if it is missing. */
  lemma Loads(r: Ring, states: seq<State>, labels: seq<Label>, p: nat, op: Op, file: FileState, ops: seq<Op>)
    returns (states': seq<State>, labels': seq<Label>, d: Data)
    requires IsExecution(r, states, labels) && InOp(states[|labels|], p, Holding(op), file, ops)
    requires file.Absent? || (file.Content? && Inv(r, file.data))
    ensures IsExecution(r, states', labels') && Inv(r, d)
    ensures InOp(states'[|labels'|], p, Loaded(op, d), Content(d), ops)
  {
    states', labels' := OneMore(r, states, labels, Read(p));
    if file.Absent? {
      EmptyInv(r);
      states', labels' := OneMore(r, states', labels', Create(p));
      states', labels' := OneMore(r, states', labels', WriteEmpty(p));
      d := EMPTY;
    } else {
      d := file.data;
    }
  }

  /** It computes, takes effect, and writes its copy back if that has changed. */
  lemma Computes(r: Ring, states: seq<State>, labels: seq<Label>, p: nat, op: Op, d: Data, ops: seq<Op>)
    returns (states': seq<State>, labels': seq<Label>, d': Data, reply: Reply)
    requires IsExecution(r, states, labels) && InOp(states[|labels|], p, Loaded(op, d), Content(d), ops)
    requires Inv(r, d)
    ensures IsExecution(r, states', labels') && Inv(r, d')
    ensures InOp(states'[|labels'|], p, Finished(op, reply), Content(d'), ops + [op])
  {
    var (after, answer) := Apply(r, d, op);
    d', reply := after, answer;
    ApplyKeepsInv(r, d, op);
    StageAfter(states[|labels|].history, Took(p, op, reply));
    states', labels' := OneMore(r, states, labels, Compute(p));
    if d' != d {
      states', labels' := OneMore(r, states', labels', WriteData(p));
    }
  }

  lemma Ends(r: Ring, states: seq<State>, labels: seq<Label>, p: nat, op: Op, reply: Reply, d: Data, ops: seq<Op>)
    returns (states': seq<State>, labels': seq<Label>)
    requires IsExecution(r, states, labels) && InOp(states[|labels|], p, Finished(op, reply), Content(d), ops)
    requires Inv(r, d)
    ensures IsExecution(r, states', labels') && Rests(r, states'[|labels'|])
    ensures Ops(states'[|labels'|].history) == ops
  {
    StageAfter(states[|labels|].history, Returned(p, op, reply));
    states', labels' := OneMore(r, states, labels, Unlock(p));
  }

  /** Every sequence of operations, run by any processes, is what takes effect in some execution, at whose
      end nobody is in an operation. */
  lemma {:induction false} EverySequenceHappens(r: Ring, ops: seq<Op>, who: seq<nat>)
    returns (states: seq<State>, labels: seq<Label>)
    requires r.Wf() && |who| == |ops|
    ensures IsExecution(r, states, labels) && Rests(r, states[|labels|])
    ensures Ops(states[|labels|].history) == ops
    decreases |ops|
  {
    if ops == [] {
      states, labels := [INIT], [];
    } else {
      var n := |ops| - 1;
      states, labels := EverySequenceHappens(r, ops[..n], who[..n]);
      var file := states[|labels|].file;
      states, labels := Starts(r, states, labels, who[n], ops[n]);
      var d, d', reply;
      states, labels, d := Loads(r, states, labels, who[n], ops[n], file, ops[..n]);
      states, labels, d', reply := Computes(r, states, labels, who[n], ops[n], d, ops[..n]);
      states, labels := Ends(r, states, labels, who[n], ops[n], reply, d', ops[..n] + [ops[n]]);
      assert ops == ops[..n] + [ops[n]];
    }
  }
}
