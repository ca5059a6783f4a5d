/** The proposal and read queues with their workers and the shutdown sequence, as a step system
    at the granularity of the queue locks. Any interleaving of the steps is a run. */
module Workers {
  import opened Bytes

  type Item = nat

  const PROPOSAL_BATCH := 128
  const READ_BATCH := 4096

  /** Where the read worker is in its loop. While it collects a batch it has let go of the lock, so
      the queue may grow, or be emptied by `stop`, before it is drained. */
  datatype ReadPhase = Idle | Collecting | Drained | Waiting(barrier: Item) | Answering | ReadExited

  /** How far `stop` has got. */
  datatype StopPhase = Serving | Cleared | ReadsSwapped | ProposalsSwapped | Joined

  datatype State = State(
    running: bool,
    stop: StopPhase,
    readStopping: bool,
    proposalStopping: bool,
    readQueue: seq<Item>,
    proposalQueue: seq<Item>,
    readBatch: seq<Item>,
    proposalBatch: seq<Item>,
    readPhase: ReadPhase,
    proposalCollecting: bool,
    proposalExited: bool,
    rejectedReads: seq<Item>,
    rejectedProposals: seq<Item>,
    accepted: set<Item>,
    completed: seq<Item>)

  const START := State(true, Serving, false, false, [], [], [], [], Idle, false, false, [], [], {}, [])

  datatype Step =
    | Submit(item: Item)
    | Get(item: Item)
    | CollectProposals
    | DrainProposals
    | CompleteProposal
    | ExitProposals
    | CollectReads
    | DrainReads
    | SubmitBarrier(barrier: Item)
    | BarrierRefused
    | BarrierDone
    | CompleteRead
    | FinishReadBatch
    | ExitReads
    | ClearRunning
    | SwapReads
    | CompleteRejectedRead
    | SwapProposals
    | CompleteRejectedProposal
    | Join

  function Smaller(a: nat, b: nat): nat {
    if a < b then a else b
  }

  /** May the step be taken in this state? */
  predicate Enabled(s: State, step: Step) {
    match step
    case Submit(item) => item !in s.accepted && s.running && !s.proposalStopping
    case Get(item) => item !in s.accepted && s.running && !s.readStopping
    case CollectProposals =>
      !s.proposalExited && !s.proposalCollecting && s.proposalBatch == [] && s.proposalQueue != []
    case DrainProposals => s.proposalCollecting
    case CompleteProposal => s.proposalBatch != []
    case ExitProposals =>
      && !s.proposalExited && !s.proposalCollecting && s.proposalBatch == []
      && s.proposalStopping && s.proposalQueue == []
    case CollectReads => s.readPhase == Idle && s.readQueue != []
    case DrainReads => s.readPhase == Collecting
    case SubmitBarrier(item) => s.readPhase == Drained && item !in s.accepted && s.running && !s.proposalStopping
    case BarrierRefused => s.readPhase == Drained
    case BarrierDone => s.readPhase.Waiting? && s.readPhase.barrier in s.completed
    case CompleteRead => s.readPhase == Answering && s.readBatch != []
    case FinishReadBatch => s.readPhase == Answering && s.readBatch == []
    case ExitReads => s.readPhase == Idle && s.readStopping && s.readQueue == []
    case ClearRunning => s.stop == Serving
    case SwapReads => s.stop == Cleared
    case CompleteRejectedRead => s.rejectedReads != []
    case SwapProposals => s.stop == ReadsSwapped && s.rejectedReads == []
    case CompleteRejectedProposal => s.rejectedProposals != []
    case Join =>
      s.stop == ProposalsSwapped && s.rejectedProposals == [] && s.readPhase == ReadExited && s.proposalExited
  }

  function Take(s: State, step: Step): State
    requires Enabled(s, step)
  {
    match step
    case Submit(item) => s.(proposalQueue := s.proposalQueue + [item], accepted := s.accepted + {item})
    case Get(item) => s.(readQueue := s.readQueue + [item], accepted := s.accepted + {item})
    case CollectProposals => s.(proposalCollecting := true)
    case DrainProposals =>
      var n := Smaller(|s.proposalQueue|, PROPOSAL_BATCH);
      s.(proposalBatch := s.proposalQueue[..n], proposalQueue := s.proposalQueue[n..], proposalCollecting := false)
    case CompleteProposal => s.(proposalBatch := s.proposalBatch[1..], completed := s.completed + [s.proposalBatch[0]])
    case ExitProposals => s.(proposalExited := true)
    case CollectReads => s.(readPhase := Collecting)
    case DrainReads =>
      var n := Smaller(|s.readQueue|, READ_BATCH);
      s.(readBatch := s.readQueue[..n], readQueue := s.readQueue[n..], readPhase := Drained)
    case SubmitBarrier(item) =>
      s.(proposalQueue := s.proposalQueue + [item], accepted := s.accepted + {item}, readPhase := Waiting(item))
    case BarrierRefused => s.(readPhase := Answering)
    case BarrierDone => s.(readPhase := Answering)
    case CompleteRead => s.(readBatch := s.readBatch[1..], completed := s.completed + [s.readBatch[0]])
    case FinishReadBatch => s.(readPhase := Idle)
    case ExitReads => s.(readPhase := ReadExited)
    case ClearRunning => s.(running := false, stop := Cleared)
    case SwapReads => s.(stop := ReadsSwapped, readStopping := true, rejectedReads := s.readQueue, readQueue := [])
    case CompleteRejectedRead =>
      s.(rejectedReads := s.rejectedReads[1..], completed := s.completed + [s.rejectedReads[0]])
    case SwapProposals =>
      s.(stop := ProposalsSwapped, proposalStopping := true, rejectedProposals := s.proposalQueue, proposalQueue := [])
    case CompleteRejectedProposal =>
      s.(rejectedProposals := s.rejectedProposals[1..], completed := s.completed + [s.rejectedProposals[0]])
    case Join => s.(stop := Joined)
  }

  /** How many times the item occurs in a queue. */
  function In(q: seq<Item>, item: Item): nat {
    multiset(q)[item]
  }

  /** How many times the item occurs over all the places an accepted item can be. */
  function Places(s: State, item: Item): nat {
    In(s.readQueue, item) + In(s.proposalQueue, item) + In(s.readBatch, item) + In(s.proposalBatch, item)
    + In(s.rejectedReads, item) + In(s.rejectedProposals, item) + In(s.completed, item)
  }

  predicate OnProposalSide(s: State, item: Item) {
    item in s.proposalQueue || item in s.proposalBatch || item in s.rejectedProposals || item in s.completed
  }

  /** Each accepted item is in exactly one place, hence completed at most once; stopped queues
      stay empty; exited workers hold nothing. */
  ghost predicate Inv(s: State) {
    && (forall item :: Places(s, item) == if item in s.accepted then 1 else 0)
    && (s.readStopping ==> s.readQueue == [])
    && (s.proposalStopping ==> s.proposalQueue == [])
    && (s.readStopping <==> !(s.stop.Serving? || s.stop.Cleared?))
    && (s.proposalStopping <==> s.stop.ProposalsSwapped? || s.stop.Joined?)
    && (s.stop.Serving? || s.stop.Cleared? ==> s.rejectedReads == [])
    && (!s.proposalStopping ==> s.rejectedProposals == [])
    && (s.proposalStopping ==> s.rejectedReads == [])
    && (s.readPhase == Idle || s.readPhase == Collecting || s.readPhase == ReadExited ==> s.readBatch == [])
    && (s.proposalCollecting ==> s.proposalBatch == [] && !s.proposalExited)
    && (s.readPhase == ReadExited ==> s.readStopping)
    && (s.proposalExited ==> s.proposalStopping && s.proposalBatch == [])
    && (s.readPhase.Waiting? ==> OnProposalSide(s, s.readPhase.barrier))
    && (s.running <==> s.stop.Serving?)
    && (s.stop.Joined? ==> s.readPhase == ReadExited && s.proposalExited && s.rejectedProposals == [])
  }

  /** The state after a sequence of steps; `None` if one of them was not possible. */
  function After(steps: seq<Step>): Option<State> {
    if steps == [] then Some(START) else
    var step := steps[|steps| - 1];
    match After(steps[..|steps| - 1])
    case Some(s) => if Enabled(s, step) then Some(Take(s, step)) else None
    case None => None
  }

  ghost predicate Reachable(s: State, steps: seq<Step>) {
    After(steps) == Some(s)
  }

  lemma Halves(q: seq<Item>, n: nat, item: Item)
    requires n <= |q|
    ensures In(q[..n], item) + In(q[n..], item) == In(q, item)
  {
    assert q[..n] + q[n..] == q;
  }

  lemma HeadMoves(q: seq<Item>, done: seq<Item>, item: Item)
    requires q != []
    ensures In(q[1..], item) + In(done + [q[0]], item) == In(q, item) + In(done, item)
  {
    assert [q[0]] + q[1..] == q;
  }

  lemma Enqueued(q: seq<Item>, added: Item, item: Item)
    ensures In(q + [added], item) == In(q, item) + if item == added then 1 else 0
  {
  }

  lemma Nowhere(item: Item)
    ensures In([], item) == 0
  {
  }

  /** The step completes the head of some queue. */
  predicate Completes(step: Step) {
    step.CompleteProposal? || step.CompleteRead? || step.CompleteRejectedRead? || step.CompleteRejectedProposal?
  }

  lemma PlacesCompleted(s: State, step: Step, item: Item)
    requires Enabled(s, step) && Completes(step)
    ensures Places(Take(s, step), item) == Places(s, item) && Take(s, step).accepted == s.accepted
  {
    hide In;
    match step {
      case CompleteProposal => HeadMoves(s.proposalBatch, s.completed, item);
      case CompleteRead => HeadMoves(s.readBatch, s.completed, item);
      case CompleteRejectedRead => HeadMoves(s.rejectedReads, s.completed, item);
      case CompleteRejectedProposal => HeadMoves(s.rejectedProposals, s.completed, item);
    }
  }

  /** The step accepts a new item. */
  predicate Accepts(step: Step) {
    step.Submit? || step.Get? || step.SubmitBarrier?
  }

  lemma PlacesAccepted(s: State, step: Step, item: Item)
    requires Enabled(s, step) && Accepts(step) && Places(s, item) == (if item in s.accepted then 1 else 0)
    ensures Places(Take(s, step), item) == if item in Take(s, step).accepted then 1 else 0
  {
    hide In;
    match step {
      case Submit(added) => Enqueued(s.proposalQueue, added, item);
      case Get(added) => Enqueued(s.readQueue, added, item);
      case SubmitBarrier(added) => Enqueued(s.proposalQueue, added, item);
    }
  }

  lemma PlacesKept(s: State, step: Step, item: Item)
    requires Enabled(s, step) && Places(s, item) == (if item in s.accepted then 1 else 0)
    requires (step.SwapReads? ==> s.rejectedReads == []) && (step.SwapProposals? ==> s.rejectedProposals == [])
    requires (step.DrainReads? ==> s.readBatch == []) && (step.DrainProposals? ==> s.proposalBatch == [])
    ensures Places(Take(s, step), item) == if item in Take(s, step).accepted then 1 else 0
  {
    hide In;
    Nowhere(item);
    if Completes(step) {
      PlacesCompleted(s, step, item);
    } else if Accepts(step) {
      PlacesAccepted(s, step, item);
    } else {
      match step {
        case DrainProposals => Halves(s.proposalQueue, Smaller(|s.proposalQueue|, PROPOSAL_BATCH), item);
        case DrainReads => Halves(s.readQueue, Smaller(|s.readQueue|, READ_BATCH), item);
        case _ =>
      }
    }
  }

  lemma InvKept(s: State, step: Step)
    requires Inv(s) && Enabled(s, step)
    ensures Inv(Take(s, step))
  {
    hide Places;
    forall item
      ensures Places(Take(s, step), item) == if item in Take(s, step).accepted then 1 else 0
    {
      PlacesKept(s, step, item);
    }
  }

  lemma {:induction false} InvReachable(s: State, steps: seq<Step>)
    requires Reachable(s, steps)
    ensures Inv(s)
    decreases |steps|
  {
    hide Inv, Take;
    if steps == [] {
      assert Inv(START) by { InvAtStart(); }
    } else {
      var before := After(steps[..|steps| - 1]).value;
      InvReachable(before, steps[..|steps| - 1]);
      InvKept(before, steps[|steps| - 1]);
    }
  }

  lemma InvAtStart()
    ensures Inv(START)
  {
  }

  /** No request is lost or answered twice, over every interleaving: an accepted item is in one
      place only and completed at most once, and once both workers have joined every accepted
      item has been completed exactly once. */
  lemma NothingLost(s: State, steps: seq<Step>)
    requires Reachable(s, steps)
    ensures forall item :: Places(s, item) == if item in s.accepted then 1 else 0
    ensures forall item :: In(s.completed, item) <= 1
    ensures s.stop.Joined? ==> forall item :: In(s.completed, item) == if item in s.accepted then 1 else 0
  {
    InvReachable(s, steps);
    forall item
      ensures In(s.completed, item) <= Places(s, item) == if item in s.accepted then 1 else 0
      ensures s.stop.Joined? ==> In(s.completed, item) == Places(s, item)
    {
      Nowhere(item);
    }
  }

  /** The steps the workers and `stop` itself take, with no help from clients. */
  predicate Internal(step: Step) {
    !step.Submit? && !step.Get? && !step.SubmitBarrier?
  }

  /** Collecting ends in a drain that takes at least one item, unless `stop` has emptied the queue. */
  function ReadRank(s: State): nat {
    match s.readPhase
    case Collecting => if s.readQueue == [] then 4 else 0
    case Drained => 3
    case Waiting(_) => 3
    case Answering => 2
    case Idle => 1
    case ReadExited => 0
  }

  function ProposalRank(s: State): nat {
    if s.proposalCollecting then if s.proposalQueue == [] then 2 else 0
    else if s.proposalExited then 0 else 1
  }

  function StopRank(stop: StopPhase): nat {
    match stop
    case Serving => 4
    case Cleared => 3
    case ReadsSwapped => 2
    case ProposalsSwapped => 1
    case Joined => 0
  }

  /** The work left once `stop` has cleared the running flag. */
  function WorkLeft(s: State): nat {
    10 * |s.readQueue| + 5 * |s.readBatch| + 3 * |s.proposalQueue| + |s.proposalBatch|
    + |s.rejectedReads| + |s.rejectedProposals|
    + ReadRank(s) + ProposalRank(s) + StopRank(s.stop)
  }

  lemma DrainSizes(q: seq<Item>, limit: nat)
    requires limit > 0
    ensures var n := Smaller(|q|, limit); (q != [] ==> n >= 1) && |q[..n]| == n && |q[n..]| == |q| - n
  {
  }

  lemma DrainProgress(s: State, step: Step)
    requires Enabled(s, step) && (step.DrainReads? || step.DrainProposals?)
    requires (step.DrainReads? ==> s.readBatch == [])
    requires (step.DrainProposals? ==> s.proposalBatch == [] && !s.proposalExited)
    ensures WorkLeft(Take(s, step)) < WorkLeft(s)
  {
    if step.DrainProposals? {
      DrainSizes(s.proposalQueue, PROPOSAL_BATCH);
    } else {
      DrainSizes(s.readQueue, READ_BATCH);
    }
  }

  /** Shutdown terminates: once the running flag is cleared every step, whoever takes it,
      leaves strictly less work. */
  lemma ShutdownProgress(s: State, step: Step)
    requires !s.running && Enabled(s, step) && Inv(s)
    ensures WorkLeft(Take(s, step)) < WorkLeft(s) && !Take(s, step).running
  {
    hide Places, In;
    if step.DrainReads? || step.DrainProposals? {
      DrainProgress(s, step);
    }
  }

  lemma ShutdownTerminates(s: State, steps: seq<Step>, step: Step)
    requires Reachable(s, steps) && !s.running && Enabled(s, step)
    ensures WorkLeft(Take(s, step)) < WorkLeft(s) && !Take(s, step).running
  {
    InvReachable(s, steps);
    ShutdownProgress(s, step);
  }

  /** Shutdown never gets stuck: until `stop` has joined both workers, one of them or `stop`
      itself can take a step. */
  lemma NoDeadlock(s: State, steps: seq<Step>)
    requires Reachable(s, steps) && !s.running && !s.stop.Joined?
    ensures exists step :: Internal(step) && Enabled(s, step)
  {
    InvReachable(s, steps);
    if s.rejectedReads != [] {
      assert Enabled(s, CompleteRejectedRead);
    } else if s.rejectedProposals != [] {
      assert Enabled(s, CompleteRejectedProposal);
    } else if s.stop == Cleared {
      assert Enabled(s, SwapReads);
    } else if s.stop == ReadsSwapped {
      assert Enabled(s, SwapProposals);
    } else if s.proposalBatch != [] {
      assert Enabled(s, CompleteProposal);
    } else if s.proposalCollecting {
      assert Enabled(s, DrainProposals);
    } else if !s.proposalExited {
      assert Enabled(s, ExitProposals);
    } else {
      ReadWorkerMoves(s);
    }
  }

  /** With the proposal side finished, a barrier the read worker waits for has been completed. */
  lemma ReadWorkerMoves(s: State)
    requires Inv(s) && s.stop == ProposalsSwapped && s.rejectedProposals == [] && s.proposalExited
    ensures exists step :: Internal(step) && Enabled(s, step)
  {
    match s.readPhase {
      case Idle => assert Enabled(s, ExitReads);
      case Collecting => assert Enabled(s, DrainReads);
      case Drained => assert Enabled(s, BarrierRefused);
      case Waiting(barrier) =>
        assert Enabled(s, BarrierDone);
      case Answering =>
        assert if s.readBatch != [] then Enabled(s, CompleteRead) else Enabled(s, FinishReadBatch);
      case ReadExited => assert Enabled(s, Join);
    }
  }
}
