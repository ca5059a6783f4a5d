/** Lease reads and real-time order: for every configured timing some run of three voters, in
    which a quorum hears every leader and no voter votes early, has a lease read that misses a
    write an earlier barrier read saw. So the store is linearizable if and only if lease reads
    are off. */
module LeaseAnomaly {
  import opened Bytes
  import opened ReadLease
  import opened Commands
  import opened Machine = KvStateMachine
  import opened Cluster
  import KvApply
  import SortedMap
  import R = Replicas

  const KEY: Bytes := [107]
  const STORED: Bytes := [118]
  const SET_KEY := Command(1, Commands.Set, KEY, STORED, 0, 0)

  /** The first leader's own entry, the barrier of the first read, the second leader's own entry
      and a write. */
  const LOG := [Config, App(CommandBytes(BARRIER)), Config, App(CommandBytes(SET_KEY))]
  const SLOTS := [Slot(1, None), Slot(1, Some(1)), Slot(2, None), Slot(2, None)]

  /** The parameters the configuration accepts, with lease reads on. */
  predicate LeaseParams(p: Params) {
    ValidTiming(p.timing) && MIN_FIELD <= p.maxField && p.leaseReads
  }

  // ---- Extending a run ----

  lemma {:induction false} RunSnoc(s: Cluster, p: Params, steps: seq<Step>, t: Cluster, step: Step)
    requires Run(s, p, steps, t) && Enabled(t, p, step)
    ensures Run(s, p, steps + [step], Take(t, p, step))
    decreases |steps|
  {
    hide Enabled, Take;
    if steps == [] {
      assert Run(Take(t, p, step), p, [], Take(t, p, step));
    } else {
      RunSnoc(Take(s, p, steps[0]), p, steps[1..], t, step);
      assert (steps + [step])[1..] == steps[1..] + [step];
    }
  }

  lemma Extend(t: Cluster, p: Params, step: Step)
    requires Reachable(t, p) && Enabled(t, p, step)
    ensures Reachable(Take(t, p, step), p)
  {
    hide Enabled, Take, Initial;
    var s, steps :| Initial(s) && Run(s, p, steps, t);
    RunSnoc(s, p, steps, t, step);
  }

  /** A move of Raft; a new leader starts after everything committed. */
  lemma Move(s: Cluster, p: Params, move: EnvStep)
    requires Reachable(s, p) && EnvEnabled(s.env, p.timing, move)
    requires move.Elect? ==> |s.slots| <= move.start
    ensures Reachable(s.(env := EnvTake(s.env, move)), p)
  {
    hide Reachable;
    Extend(s, p, Raft(move));
  }

  /** The node applies the next `count` entries. */
  lemma {:induction false} Catches(s: Cluster, p: Params, node: NodeId, count: nat) returns (t: Cluster)
    requires Reachable(s, p) && Applied(s, node) + count <= |s.log|
    ensures Reachable(t, p) && t == s.(replicas := t.replicas)
    ensures Applied(t, node) == Applied(s, node) + count
    ensures forall other :: other != node ==> ReplicaOf(t, other) == ReplicaOf(s, other)
    decreases count
  {
    hide Reachable, R.ApplyNext;
    if count == 0 {
      t := s;
    } else {
      var u := Catches(s, p, node, count - 1);
      Extend(u, p, Advance(node));
      AppliesOne(ReplicaOf(u, node), u.log[Applied(u, node)], p.maxField);
      t := Take(u, p, Advance(node));
    }
  }

  lemma AppliesOne(r: R.Replica, entry: LogEntry, maxField: nat)
    ensures R.ApplyNext(r, entry, maxField).state.lastIndex == r.state.lastIndex + 1
  {
    hide DecodeCommand, KvApply.Apply, What;
  }

  // ---- The two leaders ----

  function Silent(t: Timing): Voter {
    Voter(0, 0 - t.lower)
  }

  function Nobody(t: Timing): Env {
    Env(0, map[1 := Silent(t), 2 := Silent(t), 3 := Silent(t)], {}, {}, map[])
  }

  /** Node 1 leads term 1, and the others have heard from it at time 0. */
  function First(t: Timing): Env {
    Env(0,
        map[1 := Voter(1, 0 - t.lower), 2 := Voter(1, 0), 3 := Voter(1, 0)],
        {Vote(1, 1, 0), Vote(2, 1, 0)},
        {Reset(1, 2, 0), Reset(1, 3, 0)},
        map[1 := Leader(1, 0, true, map[])])
  }

  /** Once the lower bound has passed, nodes 2 and 3 have elected node 2 for term 2; it has heard
      back from node 3, and node 1 has heard of it and stepped down. */
  function Second(t: Timing): Env {
    Responded(t).(
      voters := map[1 := Voter(2, t.lower), 2 := Voter(2, 0), 3 := Voter(2, t.lower)],
      resets := Responded(t).resets + {Reset(2, 1, t.lower)},
      leaders := map[1 := Leader(1, 0, false, map[]), 2 := Leader(2, 2, true, map[3 := Contact(t.lower, t.lower)])])
  }

  lemma ElectedByTwo(e: Env, a: NodeId, b: NodeId, term: nat, time: int)
    requires e.voters.Keys == {1, 2, 3} && a in e.voters && b in e.voters && a != b
    requires Vote(a, term, time) in e.votes && Vote(b, term, time) in e.votes
    ensures ElectedBy(e, {a, b}, term)
  {
    assert Voted(e, a, term) && Voted(e, b, term);
    assert |e.voters.Keys| == 3;
  }

  lemma FirstElection(s: Cluster, p: Params)
    requires Reachable(s, p) && s.env == Nobody(p.timing) && s.slots == []
    ensures Reachable(s.(env := First(p.timing)), p)
  {
    hide Reachable, ElectedBy;
    var t := p.timing;
    var e1 := EnvTake(s.env, GrantVote(1, 1));
    Move(s, p, GrantVote(1, 1));
    var e2 := EnvTake(e1, GrantVote(2, 1));
    Move(s.(env := e1), p, GrantVote(2, 1));
    ElectedByTwo(e2, 1, 2, 1, 0);
    var e3 := EnvTake(e2, Elect(1, 1, {1, 2}, 0));
    Move(s.(env := e2), p, Elect(1, 1, {1, 2}, 0));
    var e4 := EnvTake(e3, Heartbeat(1, 2));
    Move(s.(env := e3), p, Heartbeat(1, 2));
    Move(s.(env := e4), p, Heartbeat(1, 3));
    assert EnvTake(e4, Heartbeat(1, 3)) == First(t);
  }

  /** Term 2 after its election: the votes came a whole lower bound after term 1's last contact. */
  function Elected(t: Timing): Env {
    First(t).(
      time := t.lower,
      voters := map[1 := Voter(1, 0 - t.lower), 2 := Voter(2, 0), 3 := Voter(2, 0)],
      votes := First(t).votes + {Vote(2, 2, t.lower), Vote(3, 2, t.lower)},
      leaders := map[1 := Leader(1, 0, true, map[]), 2 := Leader(2, 2, true, map[])])
  }

  lemma SecondElection(s: Cluster, p: Params)
    requires Reachable(s, p) && s.env == First(p.timing) && |s.slots| <= 2 && ValidTiming(p.timing)
    ensures Reachable(s.(env := Elected(p.timing)), p)
  {
    hide Reachable, ElectedBy;
    var t := p.timing;
    var e1 := EnvTake(s.env, Tick(t.lower));
    Move(s, p, Tick(t.lower));
    var e2 := EnvTake(e1, GrantVote(2, 2));
    Move(s.(env := e1), p, GrantVote(2, 2));
    var e3 := EnvTake(e2, GrantVote(3, 2));
    Move(s.(env := e2), p, GrantVote(3, 2));
    ElectedByTwo(e3, 2, 3, 2, t.lower);
    Move(s.(env := e3), p, Elect(2, 2, {2, 3}, 2));
    assert EnvTake(e3, Elect(2, 2, {2, 3}, 2)) == Elected(t);
  }

  lemma SecondHeard(s: Cluster, p: Params)
    requires Reachable(s, p) && s.env == Elected(p.timing) && ValidTiming(p.timing)
    ensures Reachable(s.(env := Second(p.timing)), p)
  {
    hide Reachable, Responded, Second, Elected, EnvEnabled, EnvTake;
    var e := Responded(p.timing);
    SecondResponse(s, p);
    LastMoves(p.timing);
    Move(s.(env := e), p, Heartbeat(2, 1));
    Move(s.(env := EnvTake(e, Heartbeat(2, 1))), p, StepDown(1));
  }

  lemma LastMoves(t: Timing)
    ensures var e := EnvTake(Responded(t), Heartbeat(2, 1));
            && EnvEnabled(Responded(t), t, Heartbeat(2, 1)) && EnvEnabled(e, t, StepDown(1))
            && EnvTake(e, StepDown(1)) == Second(t)
  {
    hide First;
    var e := EnvTake(Responded(t), Heartbeat(2, 1));
    assert e.voters == Second(t).voters && e.resets == Second(t).resets;
    assert EnvTake(e, StepDown(1)).leaders == Second(t).leaders;
  }

  /** Node 3 has heard from the new leader and answered it. */
  function Responded(t: Timing): Env {
    Elected(t).(
      voters := map[1 := Voter(1, 0 - t.lower), 2 := Voter(2, 0), 3 := Voter(2, t.lower)],
      resets := First(t).resets + {Reset(2, 3, t.lower)},
      leaders := map[1 := Leader(1, 0, true, map[]), 2 := Leader(2, 2, true, map[3 := Contact(t.lower, t.lower)])])
  }

  lemma SecondResponse(s: Cluster, p: Params)
    requires Reachable(s, p) && s.env == Elected(p.timing) && ValidTiming(p.timing)
    ensures Reachable(s.(env := Responded(p.timing)), p)
  {
    hide Reachable;
    var t := p.timing;
    var e1 := EnvTake(s.env, Heartbeat(2, 3));
    Move(s, p, Heartbeat(2, 3));
    Move(s.(env := e1), p, Respond(2, 3, t.lower));
    assert EnvTake(e1, Respond(2, 3, t.lower)) == Responded(t);
  }

  /** What the calls below need of the environment: the node leads the term, a quorum has heard
      it, and every later leader starts later. */
  ghost predicate Leading(e: Env, node: NodeId, term: nat, start: nat) {
    && Leads(e, node, term) && e.leaders[term].start == start
    && (forall later :: later in e.leaders ==> later <= term)
    && (exists quorum :: HeardBy(e, quorum, term))
  }

  lemma FirstLeading(t: Timing)
    ensures Leading(First(t), 1, 1, 0)
  {
    var e := First(t);
    assert Reset(1, 2, 0) in e.resets && Contacted(e, 2, 1);
    assert e.voters.Keys == {1, 2, 3} && |e.voters.Keys| == 3;
    assert HeardBy(e, {1, 2}, 1);
  }

  lemma SecondLeading(t: Timing)
    requires ValidTiming(t)
    ensures Leading(Second(t), 2, 2, 2) && Leased(Second(t), t, 2, 2)
  {
    var e := Second(t);
    assert Reset(2, 3, t.lower) in e.resets && Contacted(e, 3, 2);
    assert e.voters.Keys == {1, 2, 3} && |e.voters.Keys| == 3 == |e.voters|;
    assert HeardBy(e, {2, 3}, 2);
    assert FreshVoters(e, t, 2, 2) == {2, 3};
  }

  // ---- The first read waits for its barrier ----

  lemma Commits(s: Cluster, p: Params, node: NodeId, term: nat, entry: LogEntry, start: nat)
    requires Reachable(s, p) && Leading(s.env, node, term, start) && start <= |s.log|
    ensures Reachable(s.(log := s.log + [entry], slots := s.slots + [Slot(term, None)]), p)
  {
    hide Reachable, HeardBy, Leads;
    assert term in s.env.leaders by { LeadsHere(s.env, node, term); }
    Extend(s, p, Commit(term, entry, None));
  }

  lemma LeadsHere(e: Env, node: NodeId, term: nat)
    requires Leads(e, node, term)
    ensures term in e.leaders && e.leaders[term].node == node
  {
  }

  lemma Begins(s: Cluster, p: Params, id: OpId, node: NodeId, term: nat, key: Bytes)
    requires Reachable(s, p) && Leads(s.env, node, term) && id !in s.pending && id !in s.done
    ensures Reachable(s.(pending := s.pending[id := Op(node, Get(key), s.done.Keys, |s.log|, Begun)]), p)
  {
    hide Reachable, Leads;
    Extend(s, p, Invoke(id, node, Get(key)));
  }

  /** The get is queued and drained. */
  lemma GetDrained(s: Cluster, p: Params) returns (t: Cluster)
    requires Reachable(s, p) && Leads(s.env, 1, 1) && s.pending == map[] && s.done == map[]
    ensures Reachable(t, p) && t == s.(pending := t.pending)
    ensures t.pending == map[0 := Op(1, Get(KEY), {}, |s.log|, Batched(1)),
                             1 := Op(1, Barrier, {}, |s.log|, Queued)]
  {
    hide Reachable, Leads;
    assert s.done.Keys == {};
    Begins(s, p, 0, 1, 1, KEY);
    var a := s.(pending := map[0 := Op(1, Get(KEY), {}, |s.log|, Begun)]);
    Extend(a, p, Enqueue(0));
    var b := s.(pending := map[0 := Op(1, Get(KEY), {}, |s.log|, Queued)]);
    assert Take(a, p, Enqueue(0)) == b;
    Extend(b, p, Drain(1, {0}, 1));
    t := Take(b, p, Drain(1, {0}, 1));
  }

  /** Its barrier is committed. */
  lemma BarrierPlaced(s: Cluster, p: Params) returns (t: Cluster)
    requires Reachable(s, p) && Leading(s.env, 1, 1, 0) && s.pending == map[] && s.done == map[]
    ensures Reachable(t, p)
    ensures t == s.(log := s.log + [EntryOf(Barrier)], slots := s.slots + [Slot(1, Some(1))], pending := t.pending)
    ensures t.pending == map[0 := Op(1, Get(KEY), {}, |s.log|, Batched(1)),
                             1 := Op(1, Barrier, {}, |s.log|, Placed(|s.log|, 1))]
  {
    hide Reachable, HeardBy, EntryOf, Leads;
    LeadsHere(s.env, 1, 1);
    var c := GetDrained(s, p);
    Extend(c, p, Commit(1, EntryOf(Barrier), Some(1)));
    t := Take(c, p, Commit(1, EntryOf(Barrier), Some(1)));
  }

  lemma BarrierInCache(data: Bytes, maxField: nat)
    ensures var r1 := R.ApplyNext(R.FRESH, Config, maxField);
            var r2 := R.ApplyNext(r1, App(data), maxField);
            r1.state.lastIndex == 1 && r2.state.lastIndex == 2 && SortedMap.Get(r2.recent, 2).Some?
  {
    hide CommitData;
    var r1 := R.ApplyNext(R.FRESH, Config, maxField);
    AppliesOne(R.FRESH, Config, maxField);
    AppliesOne(r1, App(data), maxField);
    assert r1.recent == [];
  }

  /** Node 1 applies its own entry and the barrier and collects the barrier's result. */
  lemma BarrierCollected(s: Cluster, p: Params, data: Bytes) returns (t: Cluster)
    requires Reachable(s, p) && s.replicas == map[] && s.log == [Config, App(data)]
    requires 1 in s.pending && s.pending[1] == Op(1, Barrier, {}, 1, Placed(1, 1))
    ensures Reachable(t, p) && t == s.(replicas := t.replicas, pending := t.pending)
    ensures t.pending == s.pending[1 := Op(1, Barrier, {}, 1, Answered(1, 1))]
    ensures Applied(t, 1) == 2 && forall node :: node != 1 ==> Applied(t, node) == 0
  {
    hide Reachable, R.ApplyNext, SortedMap.Get;
    var r1 := R.ApplyNext(R.FRESH, Config, p.maxField);
    var r2 := R.ApplyNext(r1, App(data), p.maxField);
    BarrierInCache(data, p.maxField);
    Extend(s, p, Advance(1));
    var a := s.(replicas := map[1 := r1]);
    assert Take(s, p, Advance(1)) == a;
    Extend(a, p, Advance(1));
    var b := s.(replicas := map[1 := r2]);
    assert Take(a, p, Advance(1)) == b;
    Extend(b, p, Acknowledge(1));
    t := Take(b, p, Acknowledge(1));
  }

  // ---- It is answered after the change of leader ----

  /** The batch is answered from everything node 1 has applied by now. */
  lemma BarrierReadAnswered(s: Cluster, p: Params) returns (t: Cluster)
    requires Reachable(s, p) && s.done == map[]
    requires s.pending == map[0 := Op(1, Get(KEY), {}, 1, Batched(1)), 1 := Op(1, Barrier, {}, 1, Answered(1, 1))]
    ensures Reachable(t, p) && t == s.(pending := map[], done := t.done) && t.done.Keys == {0}
    ensures t.done[0].call == Get(KEY) && t.done[0].first == t.done[0].last == Applied(s, 1)
  {
    hide Reachable, Read;
    Extend(s, p, FinishBatch(1));
    t := Take(s, p, FinishBatch(1));
  }

  /** A lease read checks the lease and reads locally. */
  lemma LeaseReadGot(s: Cluster, p: Params, op: Op, key: Bytes) returns (t: Cluster)
    requires Reachable(s, p) && p.leaseReads && LeaseValid(s, p, 2, 2)
    requires s.pending == map[2 := op] && op.node == 2 && op.call == Get(key) && op.stage == Begun
    ensures Reachable(t, p) && t == s.(pending := t.pending)
    ensures 2 in t.pending && t.pending == map[2 := op.(stage := t.pending[2].stage)]
    ensures t.pending[2].stage.Got? && t.pending[2].stage.term == 2 && t.pending[2].stage.count == Applied(s, 2)
  {
    hide Reachable, Read, Leased;
    Extend(s, p, LeaseCheck(2, 2));
    var b := Take(s, p, LeaseCheck(2, 2));
    Extend(b, p, LocalGet(2));
    t := Take(b, p, LocalGet(2));
  }

  /** On node 2 it sees only what node 2 has applied. */
  lemma LeaseReadAnswered(s: Cluster, p: Params) returns (t: Cluster)
    requires Reachable(s, p) && p.leaseReads && Leads(s.env, 2, 2) && LeaseValid(s, p, 2, 2)
    requires s.pending == map[] && s.done.Keys == {0}
    ensures Reachable(t, p) && t == s.(pending := map[], done := t.done)
    ensures t.done.Keys == {0, 2} && t.done[0] == s.done[0]
    ensures t.done[2].call == Get(KEY) && t.done[2].before == {0} && t.done[2].first == Applied(s, 2)
  {
    hide Reachable, Read, Leads, Leased;
    Begins(s, p, 2, 2, 2, KEY);
    var op := Op(2, Get(KEY), {0}, |s.log|, Begun);
    var c := LeaseReadGot(s.(pending := map[2 := op]), p, op, KEY);
    Extend(c, p, LeaseFinish(2));
    t := Take(c, p, LeaseFinish(2));
  }

  // ---- The run as a whole ----

  /** Node 1 leads, and the get's barrier has been applied and its result collected. */
  lemma Waiting(p: Params) returns (t: Cluster)
    requires ValidTiming(p.timing)
    ensures Reachable(t, p) && t.env == First(p.timing) && t.done == map[]
    ensures t.log == [Config, EntryOf(Barrier)] && t.slots == [Slot(1, None), Slot(1, Some(1))]
    ensures t.pending == map[0 := Op(1, Get(KEY), {}, 1, Batched(1)), 1 := Op(1, Barrier, {}, 1, Answered(1, 1))]
    ensures Applied(t, 1) == 2 && Applied(t, 2) == 0
  {
    hide Reachable, Leading, First, CommandBytes;
    var b := Started(p);
    FirstLeading(p.timing);
    var c := BarrierPlaced(b, p);
    t := BarrierCollected(c, p, CommandBytes(BARRIER));
  }

  /** Node 1 leads and its own entry is committed. */
  lemma Started(p: Params) returns (t: Cluster)
    requires ValidTiming(p.timing)
    ensures Reachable(t, p)
    ensures t == Cluster(First(p.timing), [Config], [Slot(1, None)], map[], {}, map[], map[])
  {
    var s := Cluster(Nobody(p.timing), [], [], map[], {}, map[], map[]);
    StartReachable(s, p);
    hide Reachable, Leading, First, Nobody;
    FirstElection(s, p);
    FirstLeading(p.timing);
    Commits(s.(env := First(p.timing)), p, 1, 1, Config, 0);
    t := Cluster(First(p.timing), [Config], [Slot(1, None)], map[], {}, map[], map[]);
    assert [] + [Config] == [Config] && [] + [Slot(1, None)] == [Slot(1, None)];
  }

  /** Both leaders' entries and the write are committed, and node 1 has been deposed. */
  lemma Deposed(p: Params) returns (t: Cluster)
    requires ValidTiming(p.timing)
    ensures Reachable(t, p) && t.env == Second(p.timing) && t.done == map[]
    ensures t.log == LOG && t.slots == SLOTS
    ensures t.pending == map[0 := Op(1, Get(KEY), {}, 1, Batched(1)), 1 := Op(1, Barrier, {}, 1, Answered(1, 1))]
    ensures Applied(t, 1) == 2 && Applied(t, 2) == 0
  {
    hide Reachable, Leading, First, Second, Elected, Applied, CommandBytes;
    var c := Waiting(p);
    SecondElection(c, p);
    SecondHeard(c.(env := Elected(p.timing)), p);
    SecondLeading(p.timing);
    t := TwoCommits(c.(env := Second(p.timing)), p);
    assert Applied(t, 1) == 2 && Applied(t, 2) == 0 by { SameApplied(c, t); }
  }

  lemma SameApplied(s: Cluster, t: Cluster)
    requires s.replicas == t.replicas
    ensures Applied(s, 1) == Applied(t, 1) && Applied(s, 2) == Applied(t, 2)
  {
  }

  lemma TwoCommits(s: Cluster, p: Params) returns (t: Cluster)
    requires Reachable(s, p) && Leading(s.env, 2, 2, 2)
    requires s.log == [Config, EntryOf(Barrier)] && s.slots == [Slot(1, None), Slot(1, Some(1))]
    ensures Reachable(t, p) && t == s.(log := LOG, slots := SLOTS)
  {
    hide Reachable, Leading, CommandBytes;
    Commits(s, p, 2, 2, Config, 2);
    var a := s.(log := s.log + [Config], slots := s.slots + [Slot(2, None)]);
    Commits(a, p, 2, 2, App(CommandBytes(SET_KEY)), 2);
    t := a.(log := a.log + [App(CommandBytes(SET_KEY))], slots := a.slots + [Slot(2, None)]);
    assert t.log == LOG && t.slots == SLOTS;
  }

  lemma StartReachable(s: Cluster, p: Params)
    requires s == Cluster(Nobody(p.timing), [], [], map[], {}, map[], map[]) && p.timing.lower > 0
    ensures Reachable(s, p)
  {
    assert Initial(s) && Run(s, p, [], s);
  }

  /** Node 2 has applied its own entry only, node 1 everything. */
  lemma CaughtUp(p: Params) returns (t: Cluster)
    requires ValidTiming(p.timing)
    ensures Reachable(t, p) && t.env == Second(p.timing) && t.log == LOG && t.slots == SLOTS && t.done == map[]
    ensures t.pending == map[0 := Op(1, Get(KEY), {}, 1, Batched(1)), 1 := Op(1, Barrier, {}, 1, Answered(1, 1))]
    ensures Applied(t, 1) == 4 && Applied(t, 2) == 3
  {
    hide Reachable, Second, CommandBytes;
    var a := Deposed(p);
    var b := Catches(a, p, 2, 3);
    t := Catches(b, p, 1, 2);
  }

  /** Both reads are answered, the second one after the first had been. */
  lemma BothAnswered(p: Params) returns (s: Cluster)
    requires LeaseParams(p)
    ensures Reachable(s, p) && s.env == Second(p.timing) && s.log == LOG && s.slots == SLOTS
    ensures s.done.Keys == {0, 2} && s.done[0].call == s.done[2].call == Get(KEY) && s.done[2].before == {0}
    ensures s.done[0].first == s.done[0].last == 4 && s.done[2].first == 3
  {
    var c := CaughtUp(p);
    hide Reachable, Second, CommandBytes, Leased, Leads, Leading;
    var d := BarrierReadAnswered(c, p);
    assert Leads(d.env, 2, 2) && LeaseValid(d, p, 2, 2) by { HoldsLease(c, d, p); }
    s := LeaseReadAnswered(d, p);
  }

  lemma HoldsLease(c: Cluster, d: Cluster, p: Params)
    requires ValidTiming(p.timing) && d.env == Second(p.timing) && d.replicas == c.replicas && Applied(c, 2) == 3
    ensures Leads(d.env, 2, 2) && LeaseValid(d, p, 2, 2)
  {
    hide Leased;
    SecondLeading(p.timing);
  }

  /** For every accepted timing and field limit, with lease reads on: a reachable state of three
      voters in which read 0 had finished before read 2 was made, read 0 returned the stored
      value and read 2 returned none. */
  lemma LeaseReadGoesBack(p: Params) returns (s: Cluster)
    requires LeaseParams(p)
    ensures Reachable(s, p) && s.env.voters.Keys == {1, 2, 3} && OutOfOrder(s, 0, 2)
    ensures Overtaken(s, s.done[0], s.done[2])
    ensures s.done[0].answer == Value(Some(STORED)) && s.done[2].answer == Value(None)
  {
    hide Reachable, Sequential, CommandBytes;
    s := BothAnswered(p);
    AnswersAreSequential(s, p, 0);
    AnswersAreSequential(s, p, 2);
    RealTimeOrder(s, p, 0, 2);
    Answers(p.maxField);
    assert s.env.voters.Keys == {1, 2, 3};
  }

  lemma Answers(maxField: nat)
    requires MIN_FIELD <= maxField
    ensures Sequential(LOG, Get(KEY), 4, maxField) == Value(Some(STORED))
    ensures Sequential(LOG, Get(KEY), 3, maxField) == Value(None)
  {
    hide CommandBytes, DecodeCommand;
    CommandRoundTrip(BARRIER, maxField);
    CommandRoundTrip(SET_KEY, maxField);
    assert LOG[..4] == LOG && LOG[..4][..3] == LOG[..3] && LOG[..3][..2] == LOG[..2];
    assert LOG[..2][..1] == LOG[..1] && LOG[..1][..0] == [];
    assert Replay(LOG[..1][..0], maxField) == KvApply.EMPTY;
    assert Replay(LOG[..1], maxField).kv == map[];
    assert Replay(LOG[..2], maxField).kv == map[];
    assert Replay(LOG[..3], maxField).kv == map[];
    assert Replay(LOG[..4], maxField).kv == map[KEY := STORED];
  }

  /** A cluster the configuration accepts has finished two calls out of real-time order. */
  ghost predicate Violated(s: Cluster) {
    |s.env.voters| >= 3 && exists x, y :: OutOfOrder(s, x, y)
  }

  /** For every accepted timing and field limit: some run breaks real-time order if and only if
      lease reads are on. */
  lemma LinearizableIffNoLeaseReads(p: Params)
    requires ValidTiming(p.timing) && MIN_FIELD <= p.maxField
    ensures (exists s :: Reachable(s, p) && Violated(s)) <==> p.leaseReads
  {
    hide Reachable;
    if p.leaseReads {
      var s := LeaseReadGoesBack(p);
      assert |s.env.voters| == |s.env.voters.Keys| == 3;
      assert Violated(s);
    } else {
      forall s | Reachable(s, p)
        ensures !Violated(s)
      {
        forall x, y | x in s.done && y in s.done && x in s.done[y].before
          ensures s.done[x].last <= s.done[y].first
        {
          BarrierReadsLinearizable(s, p, x, y);
        }
      }
    }
  }
}
