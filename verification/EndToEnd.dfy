/** From a retrying client through the cluster to the answer it gets: exactly-once execution of
    the commands inside the committed log. */
module EndToEnd {
  import opened Bytes
  import opened Commands
  import opened KvApply
  import Machine = KvStateMachine
  import Cluster
  import Client
  import Answers

  /** The answer is that of the one application of the request, at `q` among the commands. */
  ghost predicate OnceAt(cmds: seq<Command>, c: Command, q: nat, answer: Cluster.Answer) {
    && q < |cmds| && cmds[q].clientId == c.clientId && cmds[q].requestId == c.requestId
    && Effective(cmds[..q], cmds[q])
    && answer == Cluster.Outcome(ApplyNew(PlainRun(map[], Filter(cmds[..q])), cmds[q]).1)
  }

  ghost predicate AnsweredOnce(cmds: seq<Command>, c: Command, answer: Cluster.Answer) {
    exists q: nat :: OnceAt(cmds, c, q, answer)
  }

  /** There is only one such place, hence only one such answer. */
  lemma OnePlace(cmds: seq<Command>, c: Command, q: nat, r: nat, answer: Cluster.Answer, other: Cluster.Answer)
    requires c.clientId > 0 && OnceAt(cmds, c, q, answer) && OnceAt(cmds, c, r, other)
    ensures q == r && answer == other
  {
    hide ApplyNew, Filter, PlainRun, GreatestId;
    if q < r {
      AtMostOnce(cmds, q, r);
    } else if r < q {
      AtMostOnce(cmds, r, q);
    }
  }

  /** The commands of a log up to and including an entry that decodes. */
  lemma DecodedNext(log: seq<Machine.LogEntry>, at: nat, c: Command, maxField: nat)
    requires at < |log| && log[at].App? && DecodeCommand(log[at].data, maxField) == Ok(c)
    ensures Machine.Decoded(log[..at + 1], maxField) == Machine.Decoded(log[..at], maxField) + [c]
  {
    hide DecodeCommand;
    assert log[..at + 1][..at] == log[..at];
  }

  lemma {:induction false} DecodedPrefix(log: seq<Machine.LogEntry>, at: nat, maxField: nat)
    requires at <= |log|
    ensures Machine.Decoded(log[..at], maxField) <= Machine.Decoded(log, maxField)
    decreases |log|
  {
    hide DecodeCommand;
    if at == |log| {
      assert log[..at] == log;
    } else {
      var n := |log| - 1;
      DecodedPrefix(log[..n], at, maxField);
      assert log[..n][..at] == log[..at];
    }
  }

  /** The sequential answer to a write is the dedup machine's on the commands before it. */
  lemma SequentialApplies(log: seq<Machine.LogEntry>, at: nat, data: Bytes, c: Command, maxField: nat)
    requires at < |log| && DecodeCommand(data, maxField) == Ok(c)
    ensures Cluster.Sequential(log, Cluster.Write(data), at, maxField)
            == Cluster.Outcome(Apply(Run(EMPTY, Machine.Decoded(log[..at], maxField)), c).1)
  {
    hide DecodeCommand, Apply, Machine.Replay, Machine.Decoded, Run;
    Machine.ReplayRuns(log[..at], maxField);
    Machine.ApplyIgnoresIndex(Machine.Replay(log[..at], maxField), c);
  }

  /** What the dedup machine answers to a request that is not below its client's greatest id. */
  lemma AppliedHere(before: seq<Command>, c: Command) returns (q: nat)
    requires IsWrite(c.kind) && c.clientId > 0 && c.requestId > 0 && GreatestId(before, c.clientId) <= c.requestId
    ensures OnceAt(before + [c], c, q, Cluster.Outcome(Apply(Run(EMPTY, before), c).1))
  {
    hide Apply, ApplyNew, Filter, PlainRun, GreatestId, Run, TableMatches;
    DedupIsFiltering(before);
    Client.ApplyDecides(before, c);
    var cmds := before + [c];
    if Effective(before, c) {
      q := |before|;
      assert cmds[..q] == before;
    } else {
      var record := Run(EMPTY, before).dedup[c.clientId];
      assert exists p: nat :: RecordedAt(before, c.clientId, record, p) by {
        RecordExists(before, Run(EMPTY, before).dedup, c.clientId);
      }
      q :| RecordedAt(before, c.clientId, record, q);
      assert cmds[..q] == before[..q] && cmds[q] == before[q];
    }
  }

  lemma RecordExists(cmds: seq<Command>, dedup: map<nat, Record>, client: nat)
    requires TableMatches(cmds, dedup) && client in dedup
    ensures exists p: nat :: RecordedAt(cmds, client, dedup[client], p)
  {
    hide RecordedAt, GreatestId;
  }

  /** In every reachable state of the cluster, a finished write whose data is a numbered command
      not below its client's greatest id was answered with the result of the request's single
      application, at or before the write's place in the log, and never with STALE_REQUEST. */
  lemma WritesExactlyOnce(s: Cluster.Cluster, p: Cluster.Params, x: Cluster.OpId, c: Command)
    requires Cluster.Reachable(s, p) && x in s.done && s.done[x].call.Write? && s.done[x].first < |s.log|
    requires DecodeCommand(s.done[x].call.data, p.maxField) == Ok(c)
    requires IsWrite(c.kind) && c.clientId > 0 && c.requestId > 0
    requires GreatestId(Machine.Decoded(s.log[..s.done[x].first], p.maxField), c.clientId) <= c.requestId
    ensures AnsweredOnce(Machine.Decoded(s.log[..s.done[x].first + 1], p.maxField), c, s.done[x].answer)
    ensures s.done[x].answer.Outcome? && s.done[x].answer.result.code != StaleRequest
  {
    hide Cluster.Reachable, Cluster.Sequential, DecodeCommand, Machine.Decoded, GreatestId;
    hide Apply, ApplyNew, Filter, PlainRun;
    var d := s.done[x];
    var before := Machine.Decoded(s.log[..d.first], p.maxField);
    Cluster.AnswersAreSequential(s, p, x);
    SequentialApplies(s.log, d.first, d.call.data, c, p.maxField);
    var q := AppliedHere(before, c);
    DecodedNext(s.log, d.first, c, p.maxField);
    assert OnceAt(before + [c], c, q, d.answer);
    Client.NeverStale(PlainRun(map[], Filter((before + [c])[..q])), (before + [c])[q]);
  }

  /** The others are answered for what they are: a finished write below its client's greatest id as
      stale, one without a request id and one that does not decode as a bad command. */
  lemma RefusedWrites(s: Cluster.Cluster, p: Cluster.Params, x: Cluster.OpId)
    requires Cluster.Reachable(s, p) && x in s.done && s.done[x].call.Write? && s.done[x].first < |s.log|
    ensures var decoded := DecodeCommand(s.done[x].call.data, p.maxField);
            var before := Machine.Decoded(s.log[..s.done[x].first], p.maxField);
            && s.done[x].answer.Outcome?
            && var code := s.done[x].answer.result.code;
               && (decoded.Err? ==> code == BadCommand)
               && (decoded.Ok? && IsWrite(decoded.value.kind) && decoded.value.clientId > 0 ==>
                     && (code == BadCommand <==> decoded.value.requestId == 0)
                     && (code == StaleRequest <==>
                           0 < decoded.value.requestId < GreatestId(before, decoded.value.clientId)))
  {
    hide Cluster.Reachable, DecodeCommand, Machine.Decoded, GreatestId, Apply, Machine.Replay;
    var d := s.done[x];
    Cluster.AnswersAreSequential(s, p, x);
    var decoded := DecodeCommand(d.call.data, p.maxField);
    if decoded.Err? {
      Answers.UndecodableAnswers(Machine.Replay(s.log[..d.first], p.maxField), d.first + 1, d.call.data, p.maxField);
    } else {
      SequentialApplies(s.log, d.first, d.call.data, decoded.value, p.maxField);
      if IsWrite(decoded.value.kind) && decoded.value.clientId > 0 {
        Answers.NumberedAnswers(Machine.Decoded(s.log[..d.first], p.maxField), decoded.value);
      }
    }
  }

  /** Together with the clients: when the commands in the committed log are those of a run of
      clients that number their writes and retry them, the answer to an outstanding call, however
      often it was sent, is that of its single application. */
  lemma RetriedWritesExactlyOnce(
    s: Cluster.Cluster, p: Cluster.Params, x: Cluster.OpId, c: Command,
    start: Client.System, events: seq<Client.Event>, t: Client.System)
    requires Cluster.Reachable(s, p) && x in s.done && s.done[x].call.Write? && s.done[x].first < |s.log|
    requires DecodeCommand(s.done[x].call.data, p.maxField) == Ok(c)
    requires Client.Initial(start) && Client.Run(start, events, t) && t.log == Machine.Decoded(s.log, p.maxField)
    requires c.clientId in t.clients && t.clients[c.clientId].outstanding && c.requestId == t.clients[c.clientId].last
    ensures AnsweredOnce(Machine.Decoded(s.log[..s.done[x].first + 1], p.maxField), c, s.done[x].answer)
    ensures s.done[x].answer.Outcome? && s.done[x].answer.result.code != StaleRequest
  {
    hide Cluster.Reachable, Cluster.Sequential, DecodeCommand, Machine.Decoded, GreatestId, AnsweredOnce;
    var d := s.done[x];
    Cluster.AnswersAreSequential(s, p, x);
    var before := Machine.Decoded(s.log[..d.first], p.maxField);
    DecodedNext(s.log, d.first, c, p.maxField);
    DecodedPrefix(s.log, d.first + 1, p.maxField);
    assert before + [c] <= t.log;
    assert t.log[|before|] == c;
    Client.InvRun(start, events, t);
    assert Client.Issued(t, c);
    forall i | 0 <= i < |before| && before[i].clientId == c.clientId
      ensures before[i].requestId <= c.requestId
    {
      assert t.log[i] == before[i] && Client.Issued(t, t.log[i]);
    }
    Client.GreatestAtMost(before, c.clientId, c.requestId);
    assert c.clientId > 0;
    WritesExactlyOnce(s, p, x, c);
  }
}
