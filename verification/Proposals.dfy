/** Answering a batch of proposals from the outcome of the Raft append. */
module Proposals {
  import opened Bytes
  import opened Commands
  import opened SortedMap
  import opened KvStateMachine
  import Cache = ResultCache
  import R = Replicas

  datatype Status = Success | NotLeader | Timeout | Unavailable | Refused
  datatype Reply = Reply(status: Status, result: Option<ApplyResult>)

  /** What comes back for a submitted batch: a failure that concerns all of it, or the log
      indexes at which its entries were committed. */
  datatype Outcome = Failure(status: Status) | Committed(indexes: seq<nat>)

  /** What Raft reports for a committed batch: increasing indexes, each holding its proposal. */
  predicate Placed(log: seq<LogEntry>, batch: seq<Bytes>, indexes: seq<nat>) {
    && (forall i, j :: 0 <= i < j < |indexes| ==> indexes[i] < indexes[j])
    && (|indexes| == |batch| ==>
          forall i :: 0 <= i < |batch| ==> 0 < indexes[i] <= |log| && log[indexes[i] - 1] == App(batch[i]))
  }

  /** The reply is the result of the proposal's own one application, or an explicit failure. */
  predicate OwnReply(reply: Reply, log: seq<LogEntry>, index: nat, data: Bytes, maxField: nat)
    requires 0 < index <= |log|
  {
    || reply == Reply(Unavailable, None)
    || reply == Reply(Success, Some(CommitData(Replay(log[..index - 1], maxField), index, data, maxField).1))
  }

  /** `process_proposal_batch` after the append, on a state machine that has applied a prefix of
      the log: every proposal gets exactly one reply, which is the shared failure, or the result
      of its own command at its own place in the log, or, if and only if no result is cached
      there, an explicit miss. */
  method AnswerBatch(
    batch: seq<Bytes>, outcome: Outcome, machine: KvStateMachine, ghost log: seq<LogEntry>)
    returns (replies: seq<Reply>)
    requires R.Faithful(R.Replica(machine.state, machine.recent), log, machine.maxField)
    requires outcome.Committed? ==> Placed(log, batch, outcome.indexes)
    modifies machine`recent
    ensures R.Faithful(R.Replica(machine.state, machine.recent), log, machine.maxField)
    ensures |replies| == |batch|
    ensures outcome.Failure? ==> machine.recent == old(machine.recent) &&
                                 forall i :: 0 <= i < |batch| ==> replies[i] == Reply(outcome.status, None)
    ensures outcome.Committed? && |outcome.indexes| != |batch| ==>
              && machine.recent == old(machine.recent)
              && forall i :: 0 <= i < |batch| ==> replies[i] == Reply(Unavailable, None)
    ensures outcome.Committed? && |outcome.indexes| == |batch| ==>
              forall i :: 0 <= i < |batch| ==>
                            && OwnReply(replies[i], log, outcome.indexes[i], batch[i], machine.maxField)
                            && (replies[i].status == Success <==> Get(old(machine.recent), outcome.indexes[i]).Some?)
                            && Get(machine.recent, outcome.indexes[i]) == None
  {
    hide Get, Cache.Remove, R.Faithful, CommitData, Replay;
    ghost var before := machine.recent;
    match outcome {
      case Failure(status) =>
        return seq(|batch|, _ => Reply(status, None));
      case Committed(indexes) =>
        if |indexes| != |batch| {
          return seq(|batch|, _ => Reply(Unavailable, None));
        }
        replies := [];
        for i := 0 to |batch|
          invariant |replies| == i
          invariant R.Faithful(R.Replica(machine.state, machine.recent), log, machine.maxField)
          invariant forall j :: i <= j < |batch| ==> Get(machine.recent, indexes[j]) == Get(before, indexes[j])
          invariant forall j :: 0 <= j < i ==>
                                  && OwnReply(replies[j], log, indexes[j], batch[j], machine.maxField)
                                  && (replies[j].status == Success <==> Get(before, indexes[j]).Some?)
                                  && Get(machine.recent, indexes[j]) == None
        {
          ghost var r := R.Replica(machine.state, machine.recent);
          FaithfulAscends(r, log, machine.maxField);
          R.CollectFaithful(r, indexes[i], log, machine.maxField);
          forall j | i < j < |batch|
            ensures Get(Cache.Remove(r.recent, indexes[i]), indexes[j]) == Get(before, indexes[j])
          {
            Cache.GetRemoved(r.recent, indexes[i], indexes[j]);
          }
          Cache.TakenGone(r.recent, indexes[i]);
          forall j | 0 <= j < i
            ensures Get(Cache.Remove(r.recent, indexes[i]), indexes[j]) == None
          {
            Cache.GetRemoved(r.recent, indexes[i], indexes[j]);
          }
          if Get(r.recent, indexes[i]).Some? {
            R.HandsOutOwnResult(r, indexes[i], log, machine.maxField);
          }
          var applied := machine.TakeResult(indexes[i]);
          var reply := Reply(if applied.Some? then Success else Unavailable, applied);
          assert OwnReply(reply, log, indexes[i], batch[i], machine.maxField);
          replies := replies + [reply];
        }
    }
  }

  lemma FaithfulAscends(r: R.Replica, log: seq<LogEntry>, maxField: nat)
    requires R.Faithful(r, log, maxField)
    ensures Ascending(r.recent)
  {
  }
}
