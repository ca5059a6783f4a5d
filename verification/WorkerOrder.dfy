/** The order in which the workers answer: every queue is first in, first out, batches are as large
    as they may be, and whatever `stop` takes back it takes from the end. */
module WorkerOrder {
  import opened Bytes
  import opened Workers

  /** A run with its history: what was put on each queue, what each worker and `stop` have
      completed, in order, and the barrier of the current batch of reads, if one was accepted. */
  datatype History = History(
    state: State,
    submitted: seq<Item>,
    requested: seq<Item>,
    proposalsDone: seq<Item>,
    readsDone: seq<Item>,
    proposalsRefused: seq<Item>,
    readsRefused: seq<Item>,
    barrier: Option<Item>)

  const BEGINNING := History(START, [], [], [], [], [], [], None)

  function Record(h: History, step: Step): History
    requires Enabled(h.state, step)
  {
    var s := h.state;
    var t := h.(state := Take(s, step));
    match step
    case Submit(item) => t.(submitted := h.submitted + [item])
    case SubmitBarrier(item) => t.(submitted := h.submitted + [item], barrier := Some(item))
    case DrainReads => t.(barrier := None)
    case Get(item) => t.(requested := h.requested + [item])
    case CompleteProposal => t.(proposalsDone := h.proposalsDone + [s.proposalBatch[0]])
    case CompleteRead => t.(readsDone := h.readsDone + [s.readBatch[0]])
    case CompleteRejectedProposal => t.(proposalsRefused := h.proposalsRefused + [s.rejectedProposals[0]])
    case CompleteRejectedRead => t.(readsRefused := h.readsRefused + [s.rejectedReads[0]])
    case _ => t
  }

  /** The history after a sequence of steps; `None` if one of them was not possible. */
  function Recorded(steps: seq<Step>): Option<History> {
    if steps == [] then Some(BEGINNING) else
    var step := steps[|steps| - 1];
    var before := Recorded(steps[..|steps| - 1]);
    if before.Some? && Enabled(before.value.state, step) then Some(Record(before.value, step)) else None
  }

  /** The items of one queue in order: completed by the worker, in its batch, still queued, refused
      by `stop`, and taken by it. */
  function Line(done: seq<Item>, batch: seq<Item>, q: seq<Item>, refused: seq<Item>, rejected: seq<Item>): seq<Item> {
    done + batch + q + refused + rejected
  }

  predicate ProposalsInOrder(h: History) {
    && h.submitted == Line(h.proposalsDone, h.state.proposalBatch, h.state.proposalQueue,
                           h.proposalsRefused, h.state.rejectedProposals)
    && |h.state.proposalBatch| <= PROPOSAL_BATCH
    && (!h.state.proposalStopping ==> h.proposalsRefused == [])
  }

  predicate ReadsInOrder(h: History) {
    && h.requested == Line(h.readsDone, h.state.readBatch, h.state.readQueue, h.readsRefused, h.state.rejectedReads)
    && |h.state.readBatch| <= READ_BATCH
    && (!h.state.readStopping ==> h.readsRefused == [])
  }

  /** The reads of a batch are answered only when its barrier, if one was accepted, is completed. */
  predicate BarrierFirst(h: History) {
    && (h.state.readPhase.Waiting? ==> h.barrier == Some(h.state.readPhase.barrier))
    && (h.state.readPhase == Answering && h.barrier.Some? ==> h.barrier.value in h.state.completed)
    && (h.state.readPhase == Drained ==> h.barrier == None)
  }

  predicate InOrder(h: History) {
    ProposalsInOrder(h) && ReadsInOrder(h) && BarrierFirst(h)
  }

  lemma LineEnqueues(done: seq<Item>, batch: seq<Item>, q: seq<Item>, item: Item)
    ensures Line(done, batch, q + [item], [], []) == Line(done, batch, q, [], []) + [item]
  {
  }

  lemma LineDrains(done: seq<Item>, q: seq<Item>, refused: seq<Item>, rejected: seq<Item>, n: nat)
    requires n <= |q|
    ensures Line(done, q[..n], q[n..], refused, rejected) == Line(done, [], q, refused, rejected)
  {
    assert q == q[..n] + q[n..];
  }

  lemma LineCompletes(done: seq<Item>, batch: seq<Item>, q: seq<Item>, refused: seq<Item>, rejected: seq<Item>)
    requires batch != []
    ensures Line(done + [batch[0]], batch[1..], q, refused, rejected) == Line(done, batch, q, refused, rejected)
  {
    assert batch == [batch[0]] + batch[1..];
  }

  lemma LineSwaps(done: seq<Item>, batch: seq<Item>, q: seq<Item>)
    ensures Line(done, batch, [], [], q) == Line(done, batch, q, [], [])
  {
  }

  lemma LineRefuses(done: seq<Item>, batch: seq<Item>, refused: seq<Item>, rejected: seq<Item>)
    requires rejected != []
    ensures Line(done, batch, [], refused + [rejected[0]], rejected[1..]) == Line(done, batch, [], refused, rejected)
  {
    assert rejected == [rejected[0]] + rejected[1..];
  }

  lemma ProposalOrderKept(h: History, step: Step)
    requires Inv(h.state) && ProposalsInOrder(h) && Enabled(h.state, step)
    ensures ProposalsInOrder(Record(h, step))
  {
    hide Places, Line;
    var s := h.state;
    match step {
      case Submit(item) => LineEnqueues(h.proposalsDone, s.proposalBatch, s.proposalQueue, item);
      case SubmitBarrier(item) => LineEnqueues(h.proposalsDone, s.proposalBatch, s.proposalQueue, item);
      case DrainProposals =>
        var n := Smaller(|s.proposalQueue|, PROPOSAL_BATCH);
        LineDrains(h.proposalsDone, s.proposalQueue, h.proposalsRefused, s.rejectedProposals, n);
      case CompleteProposal =>
        LineCompletes(h.proposalsDone, s.proposalBatch, s.proposalQueue, h.proposalsRefused, s.rejectedProposals);
      case SwapProposals => LineSwaps(h.proposalsDone, s.proposalBatch, s.proposalQueue);
      case CompleteRejectedProposal =>
        LineRefuses(h.proposalsDone, s.proposalBatch, h.proposalsRefused, s.rejectedProposals);
      case _ =>
    }
  }

  lemma ReadOrderKept(h: History, step: Step)
    requires Inv(h.state) && ReadsInOrder(h) && Enabled(h.state, step)
    ensures ReadsInOrder(Record(h, step))
  {
    hide Places, Line;
    var s := h.state;
    match step {
      case Get(item) => LineEnqueues(h.readsDone, s.readBatch, s.readQueue, item);
      case DrainReads =>
        var n := Smaller(|s.readQueue|, READ_BATCH);
        LineDrains(h.readsDone, s.readQueue, h.readsRefused, s.rejectedReads, n);
      case CompleteRead => LineCompletes(h.readsDone, s.readBatch, s.readQueue, h.readsRefused, s.rejectedReads);
      case SwapReads => LineSwaps(h.readsDone, s.readBatch, s.readQueue);
      case CompleteRejectedRead => LineRefuses(h.readsDone, s.readBatch, h.readsRefused, s.rejectedReads);
      case _ =>
    }
  }

  /** What is completed stays completed. */
  lemma CompletedGrows(s: State, step: Step)
    requires Enabled(s, step)
    ensures || Take(s, step).completed == s.completed
            || exists x :: Take(s, step).completed == s.completed + [x]
  {
    match step {
      case CompleteProposal =>
      case CompleteRead =>
      case CompleteRejectedRead =>
      case CompleteRejectedProposal =>
      case _ =>
    }
  }

  /** Where a step of the read worker leads; no other step moves it. */
  function NextPhase(phase: ReadPhase, step: Step): ReadPhase {
    match step
    case CollectReads => Collecting
    case DrainReads => Workers.Drained
    case SubmitBarrier(item) => Waiting(item)
    case BarrierRefused => Answering
    case BarrierDone => Answering
    case FinishReadBatch => Idle
    case ExitReads => ReadExited
    case _ => phase
  }

  lemma PhaseMoves(s: State, step: Step)
    requires Enabled(s, step)
    ensures Take(s, step).readPhase == NextPhase(s.readPhase, step)
  {
    match step {
      case CollectReads =>
      case DrainReads =>
      case SubmitBarrier(_) =>
      case BarrierRefused =>
      case BarrierDone =>
      case FinishReadBatch =>
      case ExitReads =>
      case _ =>
    }
  }

  lemma BarrierFirstKept(h: History, step: Step)
    requires BarrierFirst(h) && Enabled(h.state, step)
    ensures BarrierFirst(Record(h, step))
  {
    var t := Record(h, step);
    PhaseMoves(h.state, step);
    BarrierMoves(h, step);
    CompletedGrows(h.state, step);
    hide Take, Record;
  }

  lemma BarrierMoves(h: History, step: Step)
    requires Enabled(h.state, step)
    ensures Record(h, step).state == Take(h.state, step)
    ensures Record(h, step).barrier ==
            if step.SubmitBarrier? then Some(step.barrier) else if step.DrainReads? then None else h.barrier
  {
    hide Take;
  }

  lemma {:induction false} SameState(steps: seq<Step>)
    ensures Recorded(steps).Some? <==> After(steps).Some?
    ensures Recorded(steps).Some? ==> Recorded(steps).value.state == After(steps).value
    decreases |steps|
  {
    hide Take, Enabled;
    if steps != [] {
      SameState(steps[..|steps| - 1]);
    }
  }

  /** First in, first out, over every interleaving: each worker answers in the order the requests
      were accepted, in batches of at most 128 proposals and 4,096 reads, and what `stop` refuses
      came after everything a worker answers. */
  lemma {:induction false} FirstInFirstOut(steps: seq<Step>)
    requires Recorded(steps).Some?
    ensures InOrder(Recorded(steps).value)
    decreases |steps|
  {
    hide Take, Enabled, Inv, InOrder, Record;
    if steps == [] {
      NothingYet();
    } else {
      var before := steps[..|steps| - 1];
      var h, step := Recorded(before).value, steps[|steps| - 1];
      FirstInFirstOut(before);
      SameState(before);
      InvReachable(h.state, before);
      BothKept(h, step);
    }
  }

  lemma NothingYet()
    ensures InOrder(BEGINNING)
  {
  }

  lemma BothKept(h: History, step: Step)
    requires Inv(h.state) && InOrder(h) && Enabled(h.state, step)
    ensures InOrder(Record(h, step))
  {
    hide Take, Enabled, Inv, Record, ProposalsInOrder, ReadsInOrder, BarrierFirst;
    BarrierFirstKept(h, step);
    ProposalOrderKept(h, step);
    ReadOrderKept(h, step);
  }

  /** Over every interleaving, a read is answered only after the barrier of its batch. */
  lemma ReadsAfterBarrier(steps: seq<Step>)
    requires Recorded(steps).Some? && Enabled(Recorded(steps).value.state, CompleteRead)
    ensures var h := Recorded(steps).value; h.barrier.Some? ==> h.barrier.value in h.state.completed
  {
    hide Recorded, ProposalsInOrder, ReadsInOrder;
    FirstInFirstOut(steps);
  }

  /** A drain leaves nothing behind that would have fitted. */
  lemma DrainsFill(s: State, step: Step)
    requires Inv(s) && Enabled(s, step)
    ensures step.DrainProposals? ==>
              |Take(s, step).proposalBatch| == PROPOSAL_BATCH || Take(s, step).proposalQueue == []
    ensures step.DrainReads? ==> |Take(s, step).readBatch| == READ_BATCH || Take(s, step).readQueue == []
    ensures PROPOSAL_BATCH == 128 && READ_BATCH == 4096
  {
    hide Places;
  }
}
