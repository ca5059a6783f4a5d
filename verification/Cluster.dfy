/** Writes, barrier reads and lease reads over every run of a cluster. Raft appears only through
    what it promises: one committed log, leaders whose logs hold every committed entry of an
    earlier term, and the clocks, votes and contacts of `ReadLease`. Each node holds a replica
    of the state machine with its result cache, and every answer comes out of a replica. */
module Cluster {
  import opened Bytes
  import opened ReadLease
  import opened Commands
  import opened Machine = KvStateMachine
  import KvApply
  import SortedMap
  import R = Replicas

  type OpId = nat

  datatype Params = Params(timing: Timing, maxField: nat, leaseReads: bool)

  datatype Call = Write(data: Bytes) | Get(key: Bytes) | Barrier

  /** How far a call has got: a get may check the lease, read locally and check again, or be
      queued and drained into a batch; writes and barriers are queued until they are committed,
      and a barrier's result is collected before its batch is read. */
  datatype Stage =
    | Begun
    | Checked(term: nat)
    | Got(term: nat, count: nat, value: Option<Bytes>)
    | Queued
    | Batched(barrier: OpId)
    | Placed(index: nat, term: nat)
    | Answered(index: nat, term: nat)

  /** `before` holds the calls that had finished when this one was made, `base` the length of
      the committed log at that moment. */
  datatype Op = Op(node: NodeId, call: Call, before: set<OpId>, base: nat, stage: Stage)

  datatype Answer = Value(value: Option<Bytes>) | Outcome(result: ApplyResult)

  /** A finished call: it acts on the prefix of `first` entries and leaves one of `last`. `term` is
      the term of its log entry, of its barrier's entry or of its lease. */
  datatype Done = Done(
    node: NodeId,
    call: Call,
    before: set<OpId>,
    term: nat,
    lease: bool,
    first: nat,
    last: nat,
    answer: Answer)

  /** The term of a committed entry and the call that proposed it. */
  datatype Slot = Slot(term: nat, owner: Option<OpId>)

  /** `images` holds every state some node has written to a checkpoint or a snapshot. */
  datatype Cluster = Cluster(
    env: Env,
    log: seq<LogEntry>,
    slots: seq<Slot>,
    replicas: map<NodeId, R.Replica>,
    images: set<KvApply.State>,
    pending: map<OpId, Op>,
    done: map<OpId, Done>)

  datatype Step =
    | Raft(move: EnvStep)
    | Commit(term: nat, entry: LogEntry, owner: Option<OpId>)
    | Advance(node: NodeId)
    | Persist(node: NodeId)
    | Install(node: NodeId, image: KvApply.State)
    | Restart(node: NodeId, image: KvApply.State)
    | Invoke(id: OpId, node: NodeId, call: Call)
    | LeaseCheck(id: OpId, term: nat)
    | LocalGet(id: OpId)
    | LeaseFinish(id: OpId)
    | Enqueue(id: OpId)
    | Drain(node: NodeId, gets: set<OpId>, barrier: OpId)
    | Acknowledge(id: OpId)
    | FinishBatch(barrier: OpId)
    | Fail(id: OpId)

  const BARRIER := Command(1, ReadBarrier, [], [], 0, 0)

  function EntryOf(call: Call): LogEntry
    requires !call.Get?
  {
    if call.Write? then App(call.data) else App(CommandBytes(BARRIER))
  }

  function ReplicaOf(s: Cluster, node: NodeId): R.Replica {
    if node in s.replicas then s.replicas[node] else R.FRESH
  }

  /** `last_commit_index` of the node's state machine. */
  function Applied(s: Cluster, node: NodeId): nat {
    ReplicaOf(s, node).state.lastIndex
  }

  function WithReplica(s: Cluster, node: NodeId, r: R.Replica): Cluster {
    s.(replicas := s.replicas[node := r])
  }

  /** What the node's state machine answers for the key now. */
  function Read(s: Cluster, node: NodeId, key: Bytes): Option<Bytes> {
    Lookup(ReplicaOf(s, node).state.kv, key)
  }

  /** The result that waits in the node's cache for the entry at `index`, counted from zero. */
  function Cached(s: Cluster, node: NodeId, index: nat): Option<ApplyResult> {
    SortedMap.Get(ReplicaOf(s, node).recent, index + 1)
  }

  /** `has_valid_read_lease`. */
  predicate LeaseValid(s: Cluster, p: Params, node: NodeId, term: nat) {
    Leased(s.env, p.timing, node, term) && Applied(s, node) >= s.env.leaders[term].start + 1
  }

  /** What a sequential store answers at a position of the log. */
  function Sequential(log: seq<LogEntry>, call: Call, at: nat, maxField: nat): Answer {
    if at > |log| then Value(None) else
    var s := Replay(log[..at], maxField);
    match call
    case Write(data) => Outcome(CommitData(s, at + 1, data, maxField).1)
    case Get(key) => Value(Lookup(s.kv, key))
    case Barrier => Value(None)
  }

  ghost predicate Contacted(e: Env, node: NodeId, term: nat) {
    exists r :: r in e.resets && r.node == node && r.term == term
  }

  /** A quorum has heard from the leader of the term. */
  ghost predicate HeardBy(e: Env, quorum: set<NodeId>, term: nat) {
    && IsQuorum(quorum, e.voters.Keys) && term in e.leaders
    && forall v :: v in quorum ==> v == e.leaders[term].node || Contacted(e, v, term)
  }

  ghost predicate Enabled(s: Cluster, p: Params, step: Step) {
    match step
    case Raft(move) =>
      && EnvEnabled(s.env, p.timing, move)
      // A new leader's log holds every committed entry of an earlier term.
      && (move.Elect? ==> forall i :: 0 <= i < |s.slots| && s.slots[i].term < move.term ==> i < move.start)
    case Commit(term, entry, owner) =>
      // The entry's leader or a later one has reached a quorum, and every later leader has it.
      && term in s.env.leaders && s.env.leaders[term].start <= |s.log|
      && (exists later, quorum :: later >= term && HeardBy(s.env, quorum, later))
      && (forall later :: later in s.env.leaders && later > term ==> |s.log| < s.env.leaders[later].start)
      && (owner.Some? ==>
            && owner.value in s.pending
            && var op := s.pending[owner.value];
               && op.stage == Queued && !op.call.Get? && op.node == s.env.leaders[term].node
               && entry == EntryOf(op.call))
    case Advance(node) => Applied(s, node) < |s.log|
    case Persist(node) => true
    case Install(node, image) => image in s.images && Applied(s, node) <= image.lastIndex
    case Restart(node, image) => (image in s.images || image == KvApply.EMPTY) && !Serving(s, node)
    case Invoke(id, node, call) =>
      && id !in s.pending && id !in s.done && !call.Barrier?
      && exists term :: Leads(s.env, node, term)
    case LeaseCheck(id, term) =>
      && p.leaseReads && id in s.pending && s.pending[id].stage == Begun
      && LeaseValid(s, p, s.pending[id].node, term)
    case LocalGet(id) => id in s.pending && s.pending[id].call.Get? && s.pending[id].stage.Checked?
    case LeaseFinish(id) =>
      && id in s.pending && s.pending[id].stage.Got?
      && LeaseValid(s, p, s.pending[id].node, s.pending[id].stage.term)
    case Enqueue(id) =>
      id in s.pending && (s.pending[id].stage.Begun? || s.pending[id].stage.Checked? || s.pending[id].stage.Got?)
    case Drain(node, gets, barrier) =>
      && barrier !in s.pending && barrier !in s.done
      && forall id :: id in gets ==>
                        && id in s.pending && s.pending[id].call.Get?
                        && s.pending[id].stage == Queued && s.pending[id].node == node
    case Acknowledge(id) =>
      && id in s.pending && !s.pending[id].call.Get? && s.pending[id].stage.Placed?
      && Cached(s, s.pending[id].node, s.pending[id].stage.index).Some?
    case FinishBatch(barrier) =>
      && barrier in s.pending && s.pending[barrier].call.Barrier? && s.pending[barrier].stage.Answered?
    case Fail(id) => id in s.pending
  }

  /** The node believes it leads some term. */
  ghost predicate Serving(s: Cluster, node: NodeId) {
    exists term :: term in s.env.leaders && s.env.leaders[term].node == node && s.env.leaders[term].active
  }

  function Staged(s: Cluster, id: OpId, stage: Stage): Cluster
    requires id in s.pending
  {
    s.(pending := s.pending[id := s.pending[id].(stage := stage)])
  }

  /** The calls that leave with a call: itself and, for a barrier, the gets of its batch. */
  function Group(s: Cluster, id: OpId): set<OpId> {
    {id} + set get | get in s.pending && s.pending[get].stage == Batched(id)
  }

  function ReadDone(op: Op, term: nat, lease: bool, count: nat, value: Option<Bytes>): Done {
    Done(op.node, op.call, op.before, term, lease, count, count, Value(value))
  }

  /** The node's replica hands out the result waiting for the call's entry. */
  function Collect(s: Cluster, op: Op): Cluster
    requires op.stage.Placed?
  {
    WithReplica(s, op.node, R.Collected(ReplicaOf(s, op.node), op.stage.index + 1))
  }

  /** `get_many` for a batch: every get of it is answered from the node's one state. */
  function BatchAnswers(s: Cluster, barrier: OpId, term: nat): map<OpId, Done>
    requires barrier in s.pending
  {
    var node := s.pending[barrier].node;
    map get | get in s.pending && s.pending[get].stage == Batched(barrier) && s.pending[get].call.Get? ::
      ReadDone(s.pending[get], term, false, Applied(s, node), Read(s, node, s.pending[get].call.key))
  }

  ghost function Take(s: Cluster, p: Params, step: Step): Cluster
    requires Enabled(s, p, step)
  {
    match step
    case Raft(move) => s.(env := EnvTake(s.env, move))
    case Commit(term, entry, owner) =>
      var t := s.(log := s.log + [entry], slots := s.slots + [Slot(term, owner)]);
      if owner.None? then t else Staged(t, owner.value, Placed(|s.log|, term))
    case Advance(node) =>
      WithReplica(s, node, R.ApplyNext(ReplicaOf(s, node), s.log[Applied(s, node)], p.maxField))
    case Persist(node) => s.(images := s.images + {ReplicaOf(s, node).state})
    case Install(node, image) => WithReplica(s, node, R.FromImage(image))
    case Restart(node, image) =>
      WithReplica(s, node, R.FromImage(image)).(
        pending := map id | id in s.pending && s.pending[id].node != node :: s.pending[id])
    case Invoke(id, node, call) =>
      s.(pending := s.pending[id := Op(node, call, s.done.Keys, |s.log|, if call.Get? then Begun else Queued)])
    case LeaseCheck(id, term) => Staged(s, id, Checked(term))
    case LocalGet(id) =>
      var op := s.pending[id];
      Staged(s, id, Got(op.stage.term, Applied(s, op.node), Read(s, op.node, op.call.key)))
    case LeaseFinish(id) =>
      var got := s.pending[id].stage;
      s.(pending := s.pending - {id},
         done := s.done[id := ReadDone(s.pending[id], got.term, true, got.count, got.value)])
    case Enqueue(id) => Staged(s, id, Queued)
    case Drain(node, gets, barrier) =>
      var drained := map id | id in s.pending ::
        if id in gets then s.pending[id].(stage := Batched(barrier)) else s.pending[id];
      s.(pending := drained[barrier := Op(node, Barrier, s.done.Keys, |s.log|, Queued)])
    case Acknowledge(id) =>
      var op := s.pending[id];
      var (index, term) := (op.stage.index, op.stage.term);
      var t := Collect(s, op);
      if op.call.Barrier? then Staged(t, id, Answered(index, term)) else
      var result := Cached(s, op.node, index).value;
      t.(pending := s.pending - {id},
         done := s.done[id := Done(op.node, op.call, op.before, term, false, index, index + 1, Outcome(result))])
    case FinishBatch(barrier) =>
      s.(pending := s.pending - Group(s, barrier),
         done := s.done + BatchAnswers(s, barrier, s.pending[barrier].stage.term))
    case Fail(id) => s.(pending := s.pending - Group(s, id))
  }

  // ---- The invariant ----

  ghost predicate LogOk(s: Cluster) {
    && |s.slots| == |s.log|
    && (forall i :: 0 <= i < |s.slots| ==>
                      s.slots[i].term in s.env.leaders && s.env.leaders[s.slots[i].term].start <= i)
    && (forall i, term :: 0 <= i < |s.slots| && term in s.env.leaders && s.slots[i].term < term ==>
                            i < s.env.leaders[term].start)
  }

  /** Every replica is the replay of a prefix of the log and caches only its own results; so was
      every replica an image was written from. */
  ghost predicate ReplicasOk(s: Cluster, p: Params) {
    && (forall node :: node in s.replicas ==> R.Faithful(s.replicas[node], s.log, p.maxField))
    && (forall image :: image in s.images ==> R.OnPrefix(image, s.log, p.maxField))
  }

  predicate LedBy(s: Cluster, term: nat, node: NodeId) {
    term in s.env.leaders && s.env.leaders[term].node == node
  }

  /** The last entry the finished call left or saw has the call's own term. */
  predicate Steady(s: Cluster, d: Done)
    requires 0 < d.last <= |s.slots|
  {
    s.slots[d.last - 1].term == d.term
  }

  /** Everything of its own term that a serving leader has answered it has also applied. */
  predicate DoneOk(s: Cluster, p: Params, id: OpId)
    requires id in s.done
  {
    var d := s.done[id];
    && LedBy(s, d.term, d.node) && |s.slots| == |s.log|
    && 0 < d.last <= |s.log| && d.first <= d.last
    && (s.env.leaders[d.term].active && Steady(s, d) ==> d.last <= Applied(s, d.node))
    && d.answer == Sequential(s.log, d.call, d.first, p.maxField)
    && (d.call.Write? ==>
          && d.last == d.first + 1 && s.slots[d.first] == Slot(d.term, Some(id))
          && s.log[d.first] == App(d.call.data))
    && (!d.call.Write? ==> d.first == d.last)
    && (d.lease ==> p.leaseReads && Steady(s, d))
  }

  /** What a call already knows: everything finished before it was in the log when it was made. */
  ghost predicate SeenOk(s: Cluster, op: Op) {
    && op.base <= |s.log|
    && (forall x :: x in op.before ==> x in s.done && s.done[x].last <= op.base)
  }

  ghost predicate StageOk(s: Cluster, p: Params, id: OpId)
    requires id in s.pending && LogShape(s)
  {
    var op := s.pending[id];
    match op.stage
    case Begun => op.call.Get?
    case Queued => true
    case Checked(term) =>
      op.call.Get? && p.leaseReads && LedBy(s, term, op.node) && s.env.leaders[term].start < Applied(s, op.node)
    case Got(term, count, value) =>
      && op.call.Get? && p.leaseReads && LedBy(s, term, op.node) && s.env.leaders[term].start < count <= |s.log|
      && count <= Applied(s, op.node) && Value(value) == Sequential(s.log, op.call, count, p.maxField)
      && (s.env.leaders[term].active ==>
            forall x :: x in op.before ==> x in s.done && OwnTerm(s, s.done[x], term) ==> s.done[x].last <= count)
    case Batched(b) =>
      && op.call.Get? && b in s.pending && s.pending[b].call.Barrier? && s.pending[b].node == op.node
      && op.base <= s.pending[b].base
    case Placed(index, term) =>
      && !op.call.Get? && LedBy(s, term, op.node) && op.base <= index < |s.log|
      && s.slots[index] == Slot(term, Some(id)) && s.log[index] == EntryOf(op.call)
    case Answered(index, term) =>
      && op.call.Barrier? && LedBy(s, term, op.node) && op.base <= index < |s.log| && index < Applied(s, op.node)
  }

  predicate LogShape(s: Cluster) {
    |s.slots| == |s.log|
  }

  /** A finished call of the term whose last entry is of that term too. */
  predicate OwnTerm(s: Cluster, d: Done, term: nat) {
    d.term == term && 0 < d.last <= |s.slots| && Steady(s, d)
  }

  ghost predicate OpOk(s: Cluster, p: Params, id: OpId)
    requires id in s.pending
  {
    LogShape(s) && SeenOk(s, s.pending[id]) && StageOk(s, p, id)
  }

  /** The one exception: a barrier read answered by a node that had been deposed by the very
      leader whose lease serves the second read. */
  predicate Overtaken(s: Cluster, x: Done, y: Done) {
    y.lease && x.term < y.term && 0 < x.last <= |s.slots| && s.slots[x.last - 1].term == y.term
  }

  ghost predicate InOrder(s: Cluster, id: OpId)
    requires id in s.done
  {
    var y := s.done[id];
    forall x :: x in y.before ==> x in s.done && (s.done[x].last <= y.first || Overtaken(s, s.done[x], y))
  }

  ghost predicate Inv(s: Cluster, p: Params) {
    && Timely(s.env, p.timing)
    && LogOk(s)
    && ReplicasOk(s, p)
    && s.pending.Keys !! s.done.Keys
    && (forall id :: id in s.done ==> DoneOk(s, p, id) && InOrder(s, id))
    && (forall id :: id in s.pending ==> OpOk(s, p, id))
  }

  // ---- Answers of replicas ----

  lemma ReplicaFaithful(s: Cluster, p: Params, node: NodeId)
    requires ReplicasOk(s, p)
    ensures R.Faithful(ReplicaOf(s, node), s.log, p.maxField)
  {
    hide R.Faithful, R.OnPrefix;
    if node !in s.replicas {
      R.EmptyOnPrefix(s.log, p.maxField);
      R.ImageFaithful(KvApply.EMPTY, s.log, p.maxField);
    }
  }

  /** A replica's map at its applied index is the sequential store's there. */
  lemma ReadIsSequential(s: Cluster, p: Params, node: NodeId, key: Bytes)
    requires ReplicasOk(s, p)
    ensures Applied(s, node) <= |s.log|
    ensures Value(Read(s, node, key)) == Sequential(s.log, Get(key), Applied(s, node), p.maxField)
  {
    hide Replay, ReplicasOk;
    ReplicaFaithful(s, p, node);
  }

  /** A result in a node's cache is the sequential store's for the entry at that index. */
  lemma ResultIsSequential(s: Cluster, p: Params, node: NodeId, index: nat, data: Bytes)
    requires ReplicasOk(s, p) && index < |s.log| && s.log[index] == App(data) && Cached(s, node, index).Some?
    ensures index < Applied(s, node) <= |s.log|
    ensures Outcome(Cached(s, node, index).value) == Sequential(s.log, Write(data), index, p.maxField)
  {
    hide Replay, ReplicasOk, R.Faithful, CommitData, SortedMap.Get;
    ReplicaFaithful(s, p, node);
    R.HandsOutOwnResult(ReplicaOf(s, node), index + 1, s.log, p.maxField);
  }

  // ---- What later steps leave alone ----

  ghost predicate LeadersGrow(e: Env, f: Env) {
    forall term :: term in e.leaders ==>
                     && term in f.leaders && f.leaders[term].node == e.leaders[term].node
                     && f.leaders[term].start == e.leaders[term].start
                     && (f.leaders[term].active ==> e.leaders[term].active)
  }

  ghost predicate Grows(s: Cluster, t: Cluster) {
    && |s.slots| == |s.log| && |t.slots| == |t.log|
    && s.log <= t.log && s.slots <= t.slots
    && LeadersGrow(s.env, t.env)
    && (forall x :: x in s.done ==> x in t.done && t.done[x] == s.done[x])
    && (forall node :: Applied(s, node) <= Applied(t, node) || !Serving(t, node))
  }

  lemma SequentialStays(log: seq<LogEntry>, longer: seq<LogEntry>, call: Call, at: nat, maxField: nat)
    requires log <= longer && at <= |log|
    ensures Sequential(longer, call, at, maxField) == Sequential(log, call, at, maxField)
  {
    hide Replay, CommitData;
    assert longer[..at] == log[..at];
  }

  lemma DoneStays(s: Cluster, t: Cluster, p: Params, id: OpId)
    requires id in s.done && DoneOk(s, p, id) && Grows(s, t)
    ensures DoneOk(t, p, id)
  {
    hide Sequential;
    var d := s.done[id];
    SequentialStays(s.log, t.log, d.call, d.first, p.maxField);
    assert t.slots[d.last - 1] == s.slots[d.last - 1];
    assert d.call.Write? ==> t.slots[d.first] == s.slots[d.first] && t.log[d.first] == s.log[d.first];
  }

  lemma OrderStays(s: Cluster, t: Cluster, id: OpId)
    requires id in s.done && InOrder(s, id) && Grows(s, t)
    ensures InOrder(t, id)
  {
    hide Serving;
    var y := s.done[id];
    forall x | x in y.before
      ensures x in t.done && (t.done[x].last <= y.first || Overtaken(t, t.done[x], y))
    {
      assert Overtaken(s, s.done[x], y) ==> t.slots[s.done[x].last - 1] == s.slots[s.done[x].last - 1];
    }
  }

  /** The call is still pending at the same stage, on a node that has lost nothing. */
  ghost predicate Waits(s: Cluster, t: Cluster, id: OpId) {
    && id in s.pending && id in t.pending && t.pending[id] == s.pending[id]
    && Applied(s, s.pending[id].node) <= Applied(t, s.pending[id].node)
    && (s.pending[id].stage.Batched? ==>
          var b := s.pending[id].stage.barrier;
          b in s.pending ==> b in t.pending && t.pending[b].(stage := Begun) == s.pending[b].(stage := Begun))
  }

  lemma OwnTermBack(s: Cluster, t: Cluster, p: Params, x: OpId, term: nat)
    requires Grows(s, t) && x in s.done && DoneOk(s, p, x)
    ensures OwnTerm(t, t.done[x], term) ==> OwnTerm(s, s.done[x], term)
  {
    hide Serving, Sequential;
    assert t.slots[s.done[x].last - 1] == s.slots[s.done[x].last - 1];
  }

  lemma OpStays(s: Cluster, t: Cluster, p: Params, id: OpId)
    requires Waits(s, t, id) && OpOk(s, p, id) && Grows(s, t)
    requires forall x :: x in s.done ==> DoneOk(s, p, x)
    ensures OpOk(t, p, id)
  {
    hide DoneOk, OwnTerm, Serving, LogOk, Sequential;
    var op := s.pending[id];
    match op.stage {
      case Got(term, count, value) =>
        SequentialStays(s.log, t.log, op.call, count, p.maxField);
        forall x | x in op.before
          ensures x in t.done && (OwnTerm(t, t.done[x], term) ==> OwnTerm(s, s.done[x], term))
        {
          OwnTermBack(s, t, p, x, term);
        }
      case Placed(index, term) =>
        assert t.slots[index] == s.slots[index] && t.log[index] == s.log[index];
      case _ =>
    }
  }

  /** Of the finished calls only the new ones, and of the pending ones only those that moved, are
      left to check. */
  lemma Frame(s: Cluster, t: Cluster, p: Params, moved: set<OpId>)
    requires Inv(s, p) && Grows(s, t) && LogOk(t) && ReplicasOk(t, p) && Timely(t.env, p.timing)
    requires t.pending.Keys !! t.done.Keys
    requires forall id :: id in t.done && id !in s.done ==> DoneOk(t, p, id) && InOrder(t, id)
    requires forall id :: id in t.pending && id in moved ==> OpOk(t, p, id)
    requires forall id :: id in t.pending && id !in moved ==> Waits(s, t, id)
    ensures Inv(t, p)
  {
    hide DoneOk, InOrder, OpOk, Waits, LogOk, ReplicasOk, Timely, Serving;
    forall id | id in t.done
      ensures DoneOk(t, p, id) && InOrder(t, id)
    {
      if id in s.done {
        DoneStays(s, t, p, id);
        OrderStays(s, t, id);
      }
    }
    forall id | id in t.pending
      ensures OpOk(t, p, id)
    {
      if id !in moved {
        assert Waits(s, t, id) && id in s.pending by { WaitsHere(s, t, id); }
        OpStays(s, t, p, id);
      }
    }
  }

  /** The step changed no part of the log, of Raft or of the replicas. */
  predicate LocalStep(s: Cluster, t: Cluster) {
    && t.env == s.env && t.log == s.log && t.slots == s.slots && t.replicas == s.replicas && t.images == s.images
    && forall x :: x in s.done ==> x in t.done && t.done[x] == s.done[x]
  }

  lemma LocalGrows(s: Cluster, t: Cluster)
    requires LogOk(s) && LocalStep(s, t)
    ensures Grows(s, t) && LogOk(t)
  {
  }

  lemma LocalReplicas(s: Cluster, t: Cluster, p: Params)
    requires ReplicasOk(s, p) && LocalStep(s, t)
    ensures ReplicasOk(t, p)
  {
    hide R.Faithful, R.OnPrefix;
  }

  lemma LocalFrame(s: Cluster, t: Cluster, p: Params, moved: set<OpId>)
    requires Inv(s, p) && LocalStep(s, t)
    requires t.pending.Keys !! t.done.Keys
    requires forall id :: id in t.done && id !in s.done ==> DoneOk(t, p, id) && InOrder(t, id)
    requires forall id :: id in t.pending && id in moved ==> OpOk(t, p, id)
    requires forall id :: id in t.pending && id !in moved ==> Waits(s, t, id)
    ensures Inv(t, p)
  {
    hide DoneOk, InOrder, OpOk, Waits, Grows, LogOk, ReplicasOk, Timely;
    LocalGrows(s, t);
    LocalReplicas(s, t, p);
    Frame(s, t, p, moved);
  }

  lemma WaitsHere(s: Cluster, t: Cluster, id: OpId)
    requires Waits(s, t, id)
    ensures id in s.pending
  {
  }

  // ---- Every step keeps the invariant ----

  lemma RaftKeeps(s: Cluster, p: Params, step: Step)
    requires Inv(s, p) && Enabled(s, p, step) && step.Raft?
    ensures Inv(Take(s, p, step), p)
  {
    hide DoneOk, InOrder, OpOk, Timely, ReplicasOk;
    var t := Take(s, p, step);
    assert ReplicasOk(t, p) by { SameReplicas(s, t, p); }
    TimelyKept(s.env, p.timing, step.move);
    LeadersFollow(s.env, p.timing, step.move);
    NewLeaderOk(s, p, step);
    Frame(s, t, p, {});
  }

  lemma SameReplicas(s: Cluster, t: Cluster, p: Params)
    requires ReplicasOk(s, p) && t.replicas == s.replicas && t.images == s.images && s.log <= t.log
    ensures ReplicasOk(t, p)
  {
    hide R.Faithful, R.OnPrefix;
    forall node | node in t.replicas
      ensures R.Faithful(t.replicas[node], t.log, p.maxField)
    {
      R.FaithfulStays(s.replicas[node], s.log, t.log, p.maxField);
    }
    forall image | image in t.images
      ensures R.OnPrefix(image, t.log, p.maxField)
    {
      R.PrefixStays(image, s.log, t.log, p.maxField);
    }
  }

  lemma LeadersFollow(e: Env, t: Timing, move: EnvStep)
    requires EnvEnabled(e, t, move)
    ensures LeadersGrow(e, EnvTake(e, move))
  {
  }

  lemma NewLeaderOk(s: Cluster, p: Params, step: Step)
    requires LogOk(s) && Enabled(s, p, step) && step.Raft?
    ensures LogOk(Take(s, p, step))
  {
    hide ElectedBy, Voted;
  }

  lemma CommitWaits(s: Cluster, p: Params, step: Step, id: OpId)
    requires Inv(s, p) && Enabled(s, p, step) && step.Commit? && id in s.pending && step.owner != Some(id)
    ensures Waits(s, Take(s, p, step), id)
  {
    hide DoneOk, InOrder, Timely, OpOk, LogOk, ReplicasOk, HeardBy, EntryOf;
    BatchTogether(s, p, id);
  }

  lemma CommitKeeps(s: Cluster, p: Params, step: Step)
    requires Inv(s, p) && Enabled(s, p, step) && step.Commit?
    ensures Inv(Take(s, p, step), p)
  {
    hide DoneOk, InOrder, Timely, OpOk, LogOk, ReplicasOk, HeardBy, EntryOf, Waits, Grows;
    var t := Take(s, p, step);
    CommitGrows(s, p, step);
    assert ReplicasOk(t, p) by { SameReplicas(s, t, p); }
    if step.owner.Some? {
      CommitPlaces(s, p, step);
    }
    forall id | id in t.pending && step.owner != Some(id)
      ensures Waits(s, t, id)
    {
      CommitWaits(s, p, step, id);
    }
    Frame(s, t, p, if step.owner.Some? then {step.owner.value} else {});
  }

  lemma CommitGrows(s: Cluster, p: Params, step: Step)
    requires LogOk(s) && Enabled(s, p, step) && step.Commit?
    ensures Grows(s, Take(s, p, step)) && LogOk(Take(s, p, step))
  {
    hide EntryOf, Grows, LogOk, HeardBy;
    var t := Take(s, p, step);
    LongerGrows(s, t, step.entry, Slot(step.term, step.owner));
    LongerLogOk(s, t, step.entry, Slot(step.term, step.owner));
  }

  lemma LongerGrows(s: Cluster, t: Cluster, entry: LogEntry, slot: Slot)
    requires LogOk(s) && t.(pending := s.pending) == s.(log := s.log + [entry], slots := s.slots + [slot])
    ensures Grows(s, t)
  {
    hide Serving;
  }

  lemma LongerLogOk(s: Cluster, t: Cluster, entry: LogEntry, slot: Slot)
    requires LogOk(s) && t.(pending := s.pending) == s.(log := s.log + [entry], slots := s.slots + [slot])
    requires slot.term in s.env.leaders && s.env.leaders[slot.term].start <= |s.log|
    requires forall later :: later in s.env.leaders && later > slot.term ==> |s.log| < s.env.leaders[later].start
    ensures LogOk(t)
  {
  }

  lemma CommitPlaces(s: Cluster, p: Params, step: Step)
    requires Inv(s, p) && Enabled(s, p, step) && step.Commit? && step.owner.Some?
    ensures OpOk(Take(s, p, step), p, step.owner.value)
  {
    hide DoneOk, InOrder, Timely, LogOk, ReplicasOk, HeardBy;
    assert OpOk(s, p, step.owner.value);
    assert LogShape(s) by { ShapeOf(s); }
  }

  lemma ShapeOf(s: Cluster)
    requires LogOk(s)
    ensures LogShape(s)
  {
  }

  /** Only one node's replica changed, and it has lost nothing. */
  lemma ReplicaKeeps(s: Cluster, p: Params, node: NodeId, r: R.Replica)
    requires Inv(s, p) && R.Faithful(r, s.log, p.maxField) && Applied(s, node) <= r.state.lastIndex
    ensures Inv(WithReplica(s, node, r), p)
  {
    hide DoneOk, InOrder, OpOk, Timely, LogOk, ReplicasOk, R.Faithful;
    var t := WithReplica(s, node, r);
    assert LogOk(t) by { SameLogOk(s, t); }
    assert Grows(s, t) by { ShapeOf(s); }
    assert ReplicasOk(t, p) by { OneReplica(s, p, node, r); }
    forall id | id in t.pending
      ensures Waits(s, t, id)
    {
      BatchTogether(s, p, id);
    }
    Frame(s, t, p, {});
  }

  lemma SameLogOk(s: Cluster, t: Cluster)
    requires LogOk(s) && t.env == s.env && t.log == s.log && t.slots == s.slots
    ensures LogOk(t)
  {
  }

  lemma OneReplica(s: Cluster, p: Params, node: NodeId, r: R.Replica)
    requires ReplicasOk(s, p) && R.Faithful(r, s.log, p.maxField)
    ensures ReplicasOk(WithReplica(s, node, r), p)
  {
    hide R.Faithful, R.OnPrefix;
  }

  lemma ImageOk(s: Cluster, p: Params, image: KvApply.State)
    requires ReplicasOk(s, p) && (image in s.images || image == KvApply.EMPTY)
    ensures R.Faithful(R.FromImage(image), s.log, p.maxField)
  {
    hide R.Faithful, R.OnPrefix;
    R.EmptyOnPrefix(s.log, p.maxField);
    R.ImageFaithful(image, s.log, p.maxField);
  }

  lemma AdvanceKeeps(s: Cluster, p: Params, step: Step)
    requires Inv(s, p) && Enabled(s, p, step) && (step.Advance? || step.Install?)
    ensures Inv(Take(s, p, step), p)
  {
    hide DoneOk, InOrder, OpOk, Timely, LogOk, ReplicasOk, R.Faithful, R.ApplyNext;
    if step.Advance? {
      var r := ReplicaOf(s, step.node);
      ReplicaFaithful(s, p, step.node);
      R.CommitFaithful(r, s.log, p.maxField);
      ReplicaKeeps(s, p, step.node, R.ApplyNext(r, s.log[Applied(s, step.node)], p.maxField));
    } else {
      ImageOk(s, p, step.image);
      ReplicaKeeps(s, p, step.node, R.FromImage(step.image));
    }
  }

  lemma PersistKeeps(s: Cluster, p: Params, step: Step)
    requires Inv(s, p) && Enabled(s, p, step) && step.Persist?
    ensures Inv(Take(s, p, step), p)
  {
    hide DoneOk, InOrder, OpOk, Timely, LogOk, ReplicasOk;
    var t := Take(s, p, step);
    assert LogOk(t) by { SameLogOk(s, t); }
    assert Grows(s, t) by { ShapeOf(s); }
    assert ReplicasOk(t, p) by { OneImage(s, p, step.node); }
    forall id | id in t.pending
      ensures Waits(s, t, id)
    {
      BatchTogether(s, p, id);
    }
    Frame(s, t, p, {});
  }

  lemma OneImage(s: Cluster, p: Params, node: NodeId)
    requires ReplicasOk(s, p)
    ensures ReplicasOk(s.(images := s.images + {ReplicaOf(s, node).state}), p)
  {
    hide R.OnPrefix;
    ReplicaFaithful(s, p, node);
  }

  lemma RestartKeeps(s: Cluster, p: Params, step: Step)
    requires Inv(s, p) && Enabled(s, p, step) && step.Restart?
    ensures Inv(Take(s, p, step), p)
  {
    hide DoneOk, InOrder, OpOk, Timely, LogOk, ReplicasOk, R.Faithful;
    var t := Take(s, p, step);
    var r := R.FromImage(step.image);
    ImageOk(s, p, step.image);
    assert LogOk(t) by { SameLogOk(s, t); }
    assert Grows(s, t) by { ShapeOf(s); }
    assert ReplicasOk(t, p) by { RestartReplicas(s, t, p, step.node, r); }
    forall id | id in t.pending
      ensures Waits(s, t, id)
    {
      BatchTogether(s, p, id);
    }
    Frame(s, t, p, {});
  }

  lemma RestartReplicas(s: Cluster, t: Cluster, p: Params, node: NodeId, r: R.Replica)
    requires ReplicasOk(s, p) && R.Faithful(r, s.log, p.maxField) && t == WithReplica(s, node, r).(pending := t.pending)
    ensures ReplicasOk(t, p)
  {
    hide R.Faithful, R.OnPrefix;
  }

  lemma BatchTogether(s: Cluster, p: Params, id: OpId)
    requires id in s.pending && OpOk(s, p, id)
    ensures s.pending[id].stage.Batched? ==>
              var b := s.pending[id].stage.barrier;
              && s.pending[id].call.Get?
              && b in s.pending && s.pending[b].call.Barrier? && s.pending[b].node == s.pending[id].node
              && s.pending[id].base <= s.pending[b].base
  {
  }

  lemma DonesSeen(s: Cluster, p: Params)
    requires Inv(s, p)
    ensures forall x :: x in s.done ==> 0 < s.done[x].last <= |s.log|
  {
    hide InOrder, Timely, LogOk, ReplicasOk, OpOk, Sequential;
    assert forall x :: x in s.done ==> DoneOk(s, p, x);
  }

  lemma InvokeKeeps(s: Cluster, p: Params, step: Step)
    requires Inv(s, p) && Enabled(s, p, step) && step.Invoke?
    ensures Inv(Take(s, p, step), p)
  {
    hide InOrder, Timely, Leads, Sequential, DoneOk, ReplicasOk;
    var t := Take(s, p, step);
    DonesSeen(s, p);
    assert OpOk(t, p, step.id) by { hide LogOk; ShapeOf(s); }
    hide OpOk, LogOk;
    forall id | id in t.pending && id != step.id
      ensures Waits(s, t, id)
    {
      BatchTogether(s, p, id);
    }
    LocalFrame(s, t, p, {step.id});
  }

  /** A step that only moves one get along its lease path. */
  lemma StagedKeeps(s: Cluster, p: Params, id: OpId, stage: Stage)
    requires Inv(s, p) && id in s.pending && OpOk(Staged(s, id, stage), p, id)
    ensures Inv(Staged(s, id, stage), p)
  {
    hide DoneOk, InOrder, Timely, OpOk, LogOk, ReplicasOk;
    LocalFrame(s, Staged(s, id, stage), p, {id});
  }

  /** While a leader serves, it has applied everything of its own term that it has answered. */
  lemma OwnTermApplied(s: Cluster, p: Params, x: OpId, term: nat, node: NodeId)
    requires x in s.done && DoneOk(s, p, x) && LedBy(s, term, node) && s.env.leaders[term].active
    ensures OwnTerm(s, s.done[x], term) ==> s.done[x].last <= Applied(s, node)
  {
    hide Sequential;
  }

  lemma LocalGetOp(s: Cluster, p: Params, step: Step)
    requires Inv(s, p) && Enabled(s, p, step) && step.LocalGet?
    ensures OpOk(Take(s, p, step), p, step.id)
  {
    hide InOrder, Timely, Sequential, LogOk, ReplicasOk, Lookup, DoneOk, OwnTerm;
    assert OpOk(s, p, step.id);
    var op, t := s.pending[step.id], Take(s, p, step);
    ReadIsSequential(s, p, op.node, op.call.key);
    forall x | x in op.before && s.env.leaders[op.stage.term].active
      ensures OwnTerm(t, t.done[x], op.stage.term) ==> s.done[x].last <= Applied(s, op.node)
    {
      assert OwnTerm(t, t.done[x], op.stage.term) == OwnTerm(s, s.done[x], op.stage.term) by {
        SameOwnTerm(s, t, s.done[x], op.stage.term);
      }
      OwnTermApplied(s, p, x, op.stage.term, op.node);
    }
  }

  lemma SameOwnTerm(s: Cluster, t: Cluster, d: Done, term: nat)
    requires t.slots == s.slots
    ensures OwnTerm(t, d, term) == OwnTerm(s, d, term)
  {
  }

  lemma LeasePathOp(s: Cluster, p: Params, step: Step)
    requires Inv(s, p) && Enabled(s, p, step) && (step.LeaseCheck? || step.Enqueue?)
    ensures OpOk(Take(s, p, step), p, step.id)
  {
    hide InOrder, Timely, Sequential, FreshVoters, LogOk, ReplicasOk, DoneOk;
    assert OpOk(s, p, step.id);
  }

  lemma LeasePathKeeps(s: Cluster, p: Params, step: Step)
    requires Inv(s, p) && Enabled(s, p, step) && (step.LeaseCheck? || step.LocalGet? || step.Enqueue?)
    ensures Inv(Take(s, p, step), p)
  {
    hide Inv, OpOk, LeaseValid;
    if step.LocalGet? {
      LocalGetOp(s, p, step);
    } else {
      LeasePathOp(s, p, step);
    }
    StagedKeeps(s, p, step.id, Take(s, p, step).pending[step.id].stage);
  }

  lemma DrainOps(s: Cluster, p: Params, step: Step)
    requires Inv(s, p) && Enabled(s, p, step) && step.Drain?
    ensures OpOk(Take(s, p, step), p, step.barrier)
    ensures forall id :: id in step.gets ==> id in s.pending && OpOk(Take(s, p, step), p, id)
  {
    hide InOrder, Timely, DoneOk, LogOk, ReplicasOk;
    var t := Take(s, p, step);
    DonesSeen(s, p);
    ShapeOf(s);
    assert OpOk(t, p, step.barrier);
    forall id | id in step.gets
      ensures OpOk(t, p, id)
    {
      assert OpOk(s, p, id);
    }
  }

  lemma DrainKeeps(s: Cluster, p: Params, step: Step)
    requires Inv(s, p) && Enabled(s, p, step) && step.Drain?
    ensures Inv(Take(s, p, step), p)
  {
    hide InOrder, Timely, DoneOk, LogOk, ReplicasOk, OpOk;
    var t := Take(s, p, step);
    DrainOps(s, p, step);
    forall id | id in t.pending && id !in step.gets && id != step.barrier
      ensures Waits(s, t, id)
    {
      BatchTogether(s, p, id);
    }
    LocalFrame(s, t, p, step.gets + {step.barrier});
  }

  lemma FailKeeps(s: Cluster, p: Params, step: Step)
    requires Inv(s, p) && Enabled(s, p, step) && step.Fail?
    ensures Inv(Take(s, p, step), p)
  {
    hide InOrder, Timely, DoneOk, OpOk, LogOk, ReplicasOk;
    var t := Take(s, p, step);
    forall id | id in t.pending
      ensures Waits(s, t, id)
    {
      OthersWait(s, p, id, step.id);
    }
    LocalFrame(s, t, p, {});
  }

  /** A call outside a leaving group keeps its barrier. */
  lemma OthersWait(s: Cluster, p: Params, id: OpId, leaving: OpId)
    requires Inv(s, p) && id in s.pending && id !in Group(s, leaving)
    ensures s.pending[id].stage.Batched? ==> s.pending[id].stage.barrier !in Group(s, leaving)
  {
    hide InOrder, Timely, DoneOk, OpOk, LogOk, ReplicasOk;
    BatchTogether(s, p, id);
    if s.pending[id].stage.Batched? {
      BatchTogether(s, p, s.pending[id].stage.barrier);
    }
  }

  /** Collecting a result changes nothing but the cache. */
  lemma CollectKeeps(s: Cluster, p: Params, op: Op)
    requires Inv(s, p) && op.stage.Placed?
    ensures Inv(Collect(s, op), p) && Applied(Collect(s, op), op.node) == Applied(s, op.node)
  {
    hide Inv, R.Faithful;
    assert ReplicasOk(s, p) by { InvReplicas(s, p); }
    hide ReplicasOk;
    var r := ReplicaOf(s, op.node);
    ReplicaFaithful(s, p, op.node);
    R.CollectFaithful(r, op.stage.index + 1, s.log, p.maxField);
    ReplicaKeeps(s, p, op.node, R.Collected(r, op.stage.index + 1));
  }

  lemma InvReplicas(s: Cluster, p: Params)
    requires Inv(s, p)
    ensures ReplicasOk(s, p)
  {
  }

  lemma AcknowledgeDoneOk(s: Cluster, p: Params, step: Step)
    requires Inv(s, p) && Enabled(s, p, step) && step.Acknowledge? && s.pending[step.id].call.Write?
    ensures DoneOk(Take(s, p, step), p, step.id) && InOrder(Take(s, p, step), step.id)
  {
    hide Timely, Sequential, DoneOk, InOrder, LogOk, ReplicasOk;
    assert OpOk(s, p, step.id);
    var t, op := Take(s, p, step), s.pending[step.id];
    ResultIsSequential(s, p, op.node, op.stage.index, op.call.data);
    assert DoneOk(t, p, step.id) by { DoneByWrite(t, p, step.id); }
    assert InOrder(t, step.id) by { OrderByBase(Collect(s, op), t, step.id); }
  }

  lemma DoneByWrite(t: Cluster, p: Params, id: OpId)
    requires id in t.done
    requires var d := t.done[id];
             && LedBy(t, d.term, d.node) && |t.slots| == |t.log| && d.first < |t.log| && d.last == d.first + 1
             && d.last <= Applied(t, d.node) && d.answer == Sequential(t.log, d.call, d.first, p.maxField)
             && d.call.Write? && !d.lease && t.slots[d.first] == Slot(d.term, Some(id))
             && t.log[d.first] == App(d.call.data)
    ensures DoneOk(t, p, id)
  {
    hide Sequential;
  }

  /** A call placed no earlier than the log was long when it was made is in order. */
  lemma OrderByBase(s: Cluster, t: Cluster, id: OpId)
    requires id in s.pending && SeenOk(s, s.pending[id]) && LocalStep(s, t)
    requires id in t.done && t.done[id].before == s.pending[id].before && s.pending[id].base <= t.done[id].first
    ensures InOrder(t, id)
  {
  }

  lemma AcknowledgeKeeps(s: Cluster, p: Params, step: Step)
    requires Inv(s, p) && Enabled(s, p, step) && step.Acknowledge?
    ensures Inv(Take(s, p, step), p)
  {
    hide Inv, DoneOk, OpOk, InOrder;
    var t, op := Take(s, p, step), s.pending[step.id];
    var u := Collect(s, op);
    CollectKeeps(s, p, op);
    if op.call.Barrier? {
      BarrierAnswered(s, p, step);
      StagedKeeps(u, p, step.id, Answered(op.stage.index, op.stage.term));
    } else {
      AcknowledgeDoneOk(s, p, step);
      Apart(s, p, step.id);
      Finished(u, t, p, step.id);
    }
  }

  lemma Apart(s: Cluster, p: Params, id: OpId)
    requires Inv(s, p) && id in s.pending
    ensures id !in s.done
  {
  }

  lemma BarrierAnswered(s: Cluster, p: Params, step: Step)
    requires Inv(s, p) && Enabled(s, p, step) && step.Acknowledge? && s.pending[step.id].call.Barrier?
    ensures OpOk(Take(s, p, step), p, step.id)
  {
    hide Timely, Sequential, DoneOk, InOrder, LogOk, ReplicasOk;
    assert OpOk(s, p, step.id);
    var op := s.pending[step.id];
    ResultIsSequential(s, p, op.node, op.stage.index, CommandBytes(BARRIER));
  }

  /** One call that is no barrier's batch leaves, answered. */
  lemma Finished(u: Cluster, t: Cluster, p: Params, id: OpId)
    requires Inv(u, p) && id in u.pending && !u.pending[id].call.Barrier?
    requires LocalStep(u, t) && t.pending == u.pending - {id} && t.done.Keys == u.done.Keys + {id}
    requires DoneOk(t, p, id) && InOrder(t, id)
    ensures Inv(t, p)
  {
    hide Timely, DoneOk, OpOk, InOrder, LogOk, ReplicasOk;
    forall other | other in t.pending
      ensures Waits(u, t, other)
    {
      BatchTogether(u, p, other);
    }
    LocalFrame(u, t, p, {});
  }

  /** The finished call is within what the lease read saw, or the exception holds. */
  predicate Covered(s: Cluster, op: Op, x: OpId) {
    && op.stage.Got? && x in s.done && 0 < s.done[x].last <= |s.slots|
    && (|| s.done[x].last <= op.stage.count
        || s.done[x].term < op.stage.term == s.slots[s.done[x].last - 1].term)
  }

  /** The lease argument: when the second check passes, everything that finished before the read
      was made is in the prefix it saw, or the exception holds. */
  lemma LeaseOrder(s: Cluster, p: Params, id: OpId, x: OpId)
    requires Inv(s, p) && Enabled(s, p, LeaseFinish(id)) && x in s.pending[id].before
    ensures Covered(s, s.pending[id], x)
  {
    hide Timely, Sequential, FreshVoters, ReplicasOk, InOrder;
    assert OpOk(s, p, id) && DoneOk(s, p, x);
    var op, d := s.pending[id], s.done[x];
    var term, last := op.stage.term, s.slots[d.last - 1].term;
    assert last in s.env.leaders && d.term in s.env.leaders;
    if last > term {
      NoHigherLeader(s.env, p.timing, op.node, term, last);
    } else if d.term > term {
      NoHigherLeader(s.env, p.timing, op.node, term, d.term);
    } else if last < term {
      assert d.last - 1 < s.env.leaders[term].start;
    }
  }

  lemma LeaseDoneOk(s: Cluster, p: Params, step: Step)
    requires Inv(s, p) && Enabled(s, p, step) && step.LeaseFinish?
    ensures DoneOk(Take(s, p, step), p, step.id)
  {
    hide Timely, Sequential, Leased, InOrder, LogOk, ReplicasOk;
    assert OpOk(s, p, step.id);
    LeaseTerm(s, p, step.id);
  }

  /** The last entry a lease read sees has the lease's term. */
  lemma LeaseTerm(s: Cluster, p: Params, id: OpId)
    requires Inv(s, p) && Enabled(s, p, LeaseFinish(id))
    ensures var got := s.pending[id].stage; 0 < got.count <= |s.slots| && s.slots[got.count - 1].term == got.term
  {
    hide Timely, Sequential, FreshVoters, InOrder, DoneOk, ReplicasOk;
    assert OpOk(s, p, id);
    var got := s.pending[id].stage;
    var last := s.slots[got.count - 1].term;
    if last > got.term {
      NoHigherLeader(s.env, p.timing, s.pending[id].node, got.term, last);
    }
  }

  lemma LeaseInOrder(s: Cluster, p: Params, step: Step)
    requires Inv(s, p) && Enabled(s, p, step) && step.LeaseFinish?
    ensures InOrder(Take(s, p, step), step.id)
  {
    hide Inv, LeaseValid, Sequential;
    var t := Take(s, p, step);
    forall x | x in s.pending[step.id].before
      ensures x in t.done && (t.done[x].last <= t.done[step.id].first || Overtaken(t, t.done[x], t.done[step.id]))
    {
      LeaseOrder(s, p, step.id, x);
    }
  }

  lemma LeaseFinishKeeps(s: Cluster, p: Params, step: Step)
    requires Inv(s, p) && Enabled(s, p, step) && step.LeaseFinish?
    ensures Inv(Take(s, p, step), p)
  {
    hide Timely, Sequential, LeaseValid, DoneOk, OpOk, InOrder, LogOk, ReplicasOk;
    LeaseDoneOk(s, p, step);
    LeaseInOrder(s, p, step);
    GetStage(s, p, step.id);
    Finished(s, Take(s, p, step), p, step.id);
  }

  lemma GetStage(s: Cluster, p: Params, id: OpId)
    requires id in s.pending && OpOk(s, p, id) && s.pending[id].stage.Got?
    ensures s.pending[id].call.Get?
  {
  }

  lemma BatchDoneOk(s: Cluster, p: Params, step: Step, get: OpId)
    requires Inv(s, p) && Enabled(s, p, step) && step.FinishBatch?
    requires get in s.pending && s.pending[get].stage == Batched(step.barrier)
    ensures get in Take(s, p, step).done && DoneOk(Take(s, p, step), p, get) && InOrder(Take(s, p, step), get)
  {
    hide Timely, Sequential, DoneOk, InOrder, LogOk, ReplicasOk, Read, OpOk;
    var t := Take(s, p, step);
    BatchPlaced(s, p, step.barrier, get);
    ReadIsSequential(s, p, s.pending[step.barrier].node, s.pending[get].call.key);
    assert get in BatchAnswers(s, step.barrier, s.pending[step.barrier].stage.term);
    assert InOrder(t, get) by { OrderByBase(s, t, get); }
    assert DoneOk(t, p, get) by { BatchDone(t, p, get); }
  }

  /** A get of an answered batch was made before its barrier, which its node has applied. */
  lemma BatchPlaced(s: Cluster, p: Params, barrier: OpId, get: OpId)
    requires barrier in s.pending && OpOk(s, p, barrier) && s.pending[barrier].stage.Answered?
    requires get in s.pending && OpOk(s, p, get) && s.pending[get].stage == Batched(barrier)
    ensures var op, b := s.pending[get], s.pending[barrier];
            && op.call.Get? && op.node == b.node && SeenOk(s, op) && |s.slots| == |s.log|
            && LedBy(s, b.stage.term, b.node) && op.base <= b.stage.index < Applied(s, b.node)
  {
    hide Sequential;
  }

  /** A batched read answered from everything its node had applied. */
  lemma BatchDone(t: Cluster, p: Params, get: OpId)
    requires get in t.done
    requires var d := t.done[get];
             && LedBy(t, d.term, d.node) && |t.slots| == |t.log| && 0 < d.last <= |t.log| && d.first == d.last
             && d.last == Applied(t, d.node) && d.answer == Sequential(t.log, d.call, d.first, p.maxField)
             && d.call.Get? && !d.lease
    ensures DoneOk(t, p, get)
  {
    hide Sequential;
  }

  lemma FinishBatchKeeps(s: Cluster, p: Params, step: Step)
    requires Inv(s, p) && Enabled(s, p, step) && step.FinishBatch?
    ensures Inv(Take(s, p, step), p)
  {
    hide Timely, Sequential, DoneOk, OpOk, InOrder, LogOk, ReplicasOk;
    var t := Take(s, p, step);
    forall id | id in t.done && id !in s.done
      ensures DoneOk(t, p, id) && InOrder(t, id)
    {
      BatchDoneOk(s, p, step, id);
    }
    forall id | id in t.pending
      ensures Waits(s, t, id)
    {
      OthersWait(s, p, id, step.barrier);
    }
    LocalFrame(s, t, p, {});
  }

  lemma InvKept(s: Cluster, p: Params, step: Step)
    requires Inv(s, p) && Enabled(s, p, step)
    ensures Inv(Take(s, p, step), p)
  {
    hide Inv, Enabled, Take;
    match step {
      case Raft(_) => RaftKeeps(s, p, step);
      case Commit(_, _, _) => CommitKeeps(s, p, step);
      case Advance(_) => AdvanceKeeps(s, p, step);
      case Persist(_) => PersistKeeps(s, p, step);
      case Install(_, _) => AdvanceKeeps(s, p, step);
      case Restart(_, _) => RestartKeeps(s, p, step);
      case Invoke(_, _, _) => InvokeKeeps(s, p, step);
      case LeaseCheck(_, _) => LeasePathKeeps(s, p, step);
      case LocalGet(_) => LeasePathKeeps(s, p, step);
      case LeaseFinish(_) => LeaseFinishKeeps(s, p, step);
      case Enqueue(_) => LeasePathKeeps(s, p, step);
      case Drain(_, _, _) => DrainKeeps(s, p, step);
      case Acknowledge(_) => AcknowledgeKeeps(s, p, step);
      case FinishBatch(_) => FinishBatchKeeps(s, p, step);
      case Fail(_) => FailKeeps(s, p, step);
    }
  }

  // ---- Runs ----

  /** Nothing committed, nobody elected, no call made. */
  ghost predicate Initial(s: Cluster) {
    && s.log == [] && s.slots == [] && s.replicas == map[] && s.images == {} && s.pending == map[] && s.done == map[]
    && s.env.votes == {} && s.env.resets == {} && s.env.leaders == map[]
    && forall v :: v in s.env.voters ==> s.env.voters[v].lastContact <= s.env.time
  }

  ghost predicate Run(s: Cluster, p: Params, steps: seq<Step>, t: Cluster)
    decreases |steps|
  {
    if steps == [] then s == t
    else Enabled(s, p, steps[0]) && Run(Take(s, p, steps[0]), p, steps[1..], t)
  }

  lemma {:induction false} RunKeeps(s: Cluster, p: Params, steps: seq<Step>, t: Cluster)
    requires Inv(s, p) && Run(s, p, steps, t)
    ensures Inv(t, p)
    decreases |steps|
  {
    hide Inv, Enabled, Take;
    if steps != [] {
      InvKept(s, p, steps[0]);
      RunKeeps(Take(s, p, steps[0]), p, steps[1..], t);
    }
  }

  lemma InvAtStart(s: Cluster, p: Params)
    requires Initial(s)
    ensures Inv(s, p)
  {
  }

  ghost predicate Reachable(t: Cluster, p: Params) {
    exists s, steps :: Initial(s) && Run(s, p, steps, t)
  }

  lemma InvReachable(t: Cluster, p: Params)
    requires Reachable(t, p)
    ensures Inv(t, p)
  {
    hide Inv, Initial;
    var s, steps :| Initial(s) && Run(s, p, steps, t);
    InvAtStart(s, p);
    RunKeeps(s, p, steps, t);
  }

  // ---- The main results ----

  /** In every reachable state each finished call has one place in the committed log, no two
      writes share one, and its answer is the sequential store's answer at that place. */
  lemma AnswersAreSequential(s: Cluster, p: Params, x: OpId)
    requires Reachable(s, p) && x in s.done
    ensures var d := s.done[x];
            && d.first <= |s.log| && d.answer == Sequential(s.log, d.call, d.first, p.maxField)
            && (d.call.Write? ==> d.first < |s.log| && s.log[d.first] == App(d.call.data))
            && forall y :: y in s.done && y != x && d.call.Write? && s.done[y].call.Write? ==>
                             s.done[y].first != d.first
  {
    hide Sequential, Timely, InOrder, OpOk, LogOk, ReplicasOk;
    InvReachable(s, p);
    assert DoneOk(s, p, x);
    forall y | y in s.done && y != x && s.done[x].call.Write? && s.done[y].call.Write?
      ensures s.done[y].first != s.done[x].first
    {
      assert DoneOk(s, p, y);
    }
  }

  /** In every reachable state the places in the log respect real time: a call that had finished
      before another was made comes first, on any two nodes, over any restarts and changes of
      leader. The one exception is a lease read after a barrier read that its own leader
      overtook. */
  lemma RealTimeOrder(s: Cluster, p: Params, x: OpId, y: OpId)
    requires Reachable(s, p) && y in s.done && x in s.done[y].before
    ensures x in s.done && (!Overtaken(s, s.done[x], s.done[y]) ==> s.done[x].last <= s.done[y].first)
  {
    hide DoneOk, Timely, OpOk, LogOk, ReplicasOk;
    InvReachable(s, p);
    assert InOrder(s, y);
  }

  /** With lease reads off the store is linearizable: writes and reads, in log order, respect
      real time without exception. */
  lemma BarrierReadsLinearizable(s: Cluster, p: Params, x: OpId, y: OpId)
    requires Reachable(s, p) && !p.leaseReads && y in s.done && x in s.done[y].before
    ensures x in s.done && s.done[x].last <= s.done[y].first
    ensures s.done[y].answer == Sequential(s.log, s.done[y].call, s.done[y].first, p.maxField)
  {
    hide Sequential, Timely, OpOk, LogOk, InOrder, ReplicasOk;
    InvReachable(s, p);
    assert DoneOk(s, p, y);
    RealTimeOrder(s, p, x, y);
  }

  /** A lease read reflects every write acknowledged, and every lease read answered, before it
      was made. */
  lemma LeaseReadsFresh(s: Cluster, p: Params, x: OpId, y: OpId)
    requires Reachable(s, p) && y in s.done && s.done[y].lease && x in s.done[y].before
    ensures x in s.done && (s.done[x].call.Write? || s.done[x].lease ==> s.done[x].last <= s.done[y].first)
  {
    hide Sequential, Timely, OpOk, InOrder, ReplicasOk;
    InvReachable(s, p);
    RealTimeOrder(s, p, x, y);
    assert DoneOk(s, p, x);
  }

  /** Two finished calls out of real-time order: the second was made after the first had finished
      and does not see all that the first saw or did. */
  ghost predicate OutOfOrder(s: Cluster, x: OpId, y: OpId) {
    x in s.done && y in s.done && x in s.done[y].before && s.done[y].first < s.done[x].last
  }

  /** A finished read returns what the effective commands of its prefix left: the value of the
      last one that touched the key, and nothing if that is a DEL or there is none. */
  lemma ReadsReturnLastWrite(s: Cluster, p: Params, y: OpId, k: nat)
    requires Reachable(s, p) && y in s.done && s.done[y].call.Get?
    requires s.done[y].first <= |s.log|
    requires var applied := KvApply.Filter(Decoded(s.log[..s.done[y].first], p.maxField));
             && k <= |applied|
             && forall j :: k <= j < |applied| ==> !KvApply.Touches(applied[j], s.done[y].call.key)
    ensures var applied := KvApply.Filter(Decoded(s.log[..s.done[y].first], p.maxField));
            var key := s.done[y].call.key;
            && (k == 0 ==> s.done[y].answer == Value(None))
            && (k > 0 && applied[k - 1].key == key && applied[k - 1].kind == Set ==>
                  s.done[y].answer == Value(Some(applied[k - 1].value)))
            && (k > 0 && applied[k - 1].key == key && applied[k - 1].kind == Del ==> s.done[y].answer == Value(None))
  {
    hide KvApply.Filter, KvApply.PlainRun, KvApply.TableMatches, Decoded, Replay, Reachable, KvApply.Touches;
    var d := s.done[y];
    var prefix := s.log[..d.first];
    var applied := KvApply.Filter(Decoded(prefix, p.maxField));
    AnswersAreSequential(s, p, y);
    ReplayIsFiltering(prefix, p.maxField);
    KvApply.LastWriteWins(map[], applied, k, d.call.key);
    assert applied[..0] == [];
    KvApply.NothingRun(map[]);
  }
}
