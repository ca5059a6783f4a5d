/** Leader leases over a model of Raft's clocks, votes and contacts: while a leader's lease check
    passes, no leader of a higher term exists. Time is common to all nodes (equal clock rates). */
module ReadLease {
  import opened Bytes

  type NodeId = nat

  /** The election timeout lower bound and the heartbeat interval. Times are in microseconds. */
  datatype Timing = Timing(lower: int, heartbeat: int)

  /** The order the configuration demands. */
  predicate ValidTiming(t: Timing) {
    0 < t.heartbeat < t.lower
  }

  datatype Voter = Voter(term: nat, lastContact: int)
  /** When the follower reset its timer and when the leader received the response. */
  datatype Contact = Contact(reset: int, received: int)
  datatype Leader = Leader(node: NodeId, start: nat, active: bool, contacts: map<NodeId, Contact>)
  datatype Vote = Vote(node: NodeId, term: nat, time: int)
  datatype Reset = Reset(term: nat, node: NodeId, time: int)

  /** `votes` and `resets` are the history of votes granted and timers reset. */
  datatype Env = Env(
    time: int,
    voters: map<NodeId, Voter>,
    votes: set<Vote>,
    resets: set<Reset>,
    leaders: map<nat, Leader>)

  datatype EnvStep =
    | Tick(to: int)
    | Heartbeat(term: nat, node: NodeId)
    | Respond(term: nat, node: NodeId, reset: int)
    | GrantVote(node: NodeId, term: nat)
    | Elect(term: nat, node: NodeId, quorum: set<NodeId>, start: nat)
    | StepDown(term: nat)

  predicate IsQuorum(q: set<NodeId>, voters: set<NodeId>) {
    q <= voters && |q| >= |voters| / 2 + 1
  }

  /** The node leads the term and knows it: `is_leader()` with `get_term()` equal to it. */
  predicate Leads(e: Env, node: NodeId, term: nat) {
    && term in e.leaders && e.leaders[term].node == node && e.leaders[term].active
    && node in e.voters && e.voters[node].term == term
  }

  ghost predicate EnvEnabled(e: Env, t: Timing, step: EnvStep) {
    match step
    case Tick(to) => to >= e.time
    // A follower accepts a leader's message only if it has seen no higher term.
    case Heartbeat(term, node) => term in e.leaders && node in e.voters && e.voters[node].term <= term
    // A response is received less than one heartbeat after the follower reset its timer.
    case Respond(term, node, reset) =>
      && term in e.leaders && Reset(term, node, reset) in e.resets
      && reset <= e.time && e.time - reset < t.heartbeat
    // No voter helps a higher term within the election lower bound of its last contact.
    case GrantVote(node, term) =>
      node in e.voters && term > e.voters[node].term && e.time >= e.voters[node].lastContact + t.lower
    case Elect(term, node, quorum, start) =>
      && term !in e.leaders && node in e.voters && e.voters[node].term == term
      && ElectedBy(e, quorum, term)
    case StepDown(term) => term in e.leaders
  }

  ghost predicate Voted(e: Env, node: NodeId, term: nat) {
    exists vote :: vote in e.votes && vote.node == node && vote.term == term
  }

  /** The quorum voted for the term. */
  ghost predicate ElectedBy(e: Env, quorum: set<NodeId>, term: nat) {
    IsQuorum(quorum, e.voters.Keys) && forall v :: v in quorum ==> Voted(e, v, term)
  }

  function EnvTake(e: Env, step: EnvStep): Env {
    match step
    case Tick(to) => e.(time := to)
    case Heartbeat(term, node) =>
      e.(voters := e.voters[node := Voter(term, e.time)], resets := e.resets + {Reset(term, node, e.time)})
    case Respond(term, node, reset) =>
      if term !in e.leaders then e
      else
        var l := e.leaders[term];
        e.(leaders := e.leaders[term := l.(contacts := l.contacts[node := Contact(reset, e.time)])])
    case GrantVote(node, term) =>
      if node !in e.voters then e
      else e.(voters := e.voters[node := e.voters[node].(term := term)], votes := e.votes + {Vote(node, term, e.time)})
    case Elect(term, node, _, start) => e.(leaders := e.leaders[term := Leader(node, start, true, map[])])
    case StepDown(term) =>
      if term !in e.leaders then e else e.(leaders := e.leaders[term := e.leaders[term].(active := false)])
  }

  // ---- The timing invariant ----

  ghost predicate ResetsOk(e: Env) {
    forall r :: r in e.resets ==> r.node in e.voters && r.time <= e.voters[r.node].lastContact
  }

  ghost predicate VotesOk(e: Env) {
    forall v :: v in e.votes ==> v.node in e.voters && v.time <= e.time && v.term <= e.voters[v.node].term
  }

  /** A vote for a higher term comes at least the lower bound after every reset by a lower one. */
  ghost predicate Patient(e: Env, t: Timing) {
    forall r, v :: r in e.resets && v in e.votes && r.node == v.node && r.term < v.term ==> r.time + t.lower <= v.time
  }

  ghost predicate LeadersOk(e: Env) {
    forall term :: term in e.leaders ==>
                     exists q :: ElectedBy(e, q, term)
  }

  ghost predicate ContactsOk(e: Env, t: Timing) {
    forall term, node :: term in e.leaders && node in e.leaders[term].contacts ==>
                           var c := e.leaders[term].contacts[node];
                           Reset(term, node, c.reset) in e.resets && c.received - c.reset < t.heartbeat
  }

  ghost predicate Timely(e: Env, t: Timing) {
    && (forall v :: v in e.voters ==> e.voters[v].lastContact <= e.time)
    && ResetsOk(e) && VotesOk(e) && Patient(e, t) && LeadersOk(e) && ContactsOk(e, t)
  }

  lemma VotedStays(e: Env, f: Env, node: NodeId, term: nat)
    requires Voted(e, node, term) && e.votes <= f.votes
    ensures Voted(f, node, term)
  {
  }

  lemma ElectedStays(e: Env, f: Env, quorum: set<NodeId>, term: nat)
    requires ElectedBy(e, quorum, term) && e.votes <= f.votes && f.voters.Keys == e.voters.Keys
    ensures ElectedBy(f, quorum, term)
  {
    hide IsQuorum, Voted;
    forall v | v in quorum
      ensures Voted(f, v, term)
    {
      VotedStays(e, f, v, term);
    }
  }

  lemma LeadersStay(e: Env, f: Env)
    requires LeadersOk(e) && e.votes <= f.votes && f.voters.Keys == e.voters.Keys && f.leaders.Keys <= e.leaders.Keys
    ensures LeadersOk(f)
  {
    hide ElectedBy;
    forall term | term in f.leaders
      ensures exists q :: ElectedBy(f, q, term)
    {
      var q :| ElectedBy(e, q, term);
      ElectedStays(e, f, q, term);
    }
  }

  lemma VoteKept(e: Env, t: Timing, node: NodeId, term: nat)
    requires Timely(e, t) && EnvEnabled(e, t, GrantVote(node, term))
    ensures Timely(EnvTake(e, GrantVote(node, term)), t)
  {
    hide Voted;
    var f := EnvTake(e, GrantVote(node, term));
    assert f.voters.Keys == e.voters.Keys;
    LeadersStay(e, f);
  }

  lemma HeartbeatKept(e: Env, t: Timing, term: nat, node: NodeId)
    requires Timely(e, t) && EnvEnabled(e, t, Heartbeat(term, node))
    ensures Timely(EnvTake(e, Heartbeat(term, node)), t)
  {
    hide Voted;
    var f := EnvTake(e, Heartbeat(term, node));
    assert f.voters.Keys == e.voters.Keys;
    LeadersStay(e, f);
  }

  lemma ElectKept(e: Env, t: Timing, step: EnvStep)
    requires Timely(e, t) && EnvEnabled(e, t, step) && step.Elect?
    ensures Timely(EnvTake(e, step), t)
  {
    hide ElectedBy;
    var f := EnvTake(e, step);
    forall term | term in f.leaders
      ensures exists q :: ElectedBy(f, q, term)
    {
      if term == step.term {
        ElectedStays(e, f, step.quorum, term);
      } else {
        var q :| ElectedBy(e, q, term);
        ElectedStays(e, f, q, term);
      }
    }
  }

  lemma TimelyKept(e: Env, t: Timing, step: EnvStep)
    requires Timely(e, t) && EnvEnabled(e, t, step)
    ensures Timely(EnvTake(e, step), t)
  {
    hide Voted, IsQuorum;
    match step {
      case GrantVote(node, term) => VoteKept(e, t, node, term);
      case Heartbeat(term, node) => HeartbeatKept(e, t, term, node);
      case Elect(_, _, _, _) => ElectKept(e, t, step);
      case _ =>
        var f := EnvTake(e, step);
        assert f.leaders.Keys == e.leaders.Keys;
        LeadersStay(e, f);
    }
  }

  // ---- The lease ----

  /** The voters that count as fresh: the leader itself and every peer whose last successful
      response is no older than the lower bound minus one heartbeat. */
  function FreshVoters(e: Env, t: Timing, node: NodeId, term: nat): set<NodeId>
    requires term in e.leaders
  {
    {node} * e.voters.Keys
    + set v | v in e.leaders[term].contacts && v in e.voters && v != node
              && e.time - e.leaders[term].contacts[v].received <= t.lower - t.heartbeat
  }

  /** The quorum part of `has_valid_read_lease`. */
  predicate Leased(e: Env, t: Timing, node: NodeId, term: nat) {
    Leads(e, node, term) && |FreshVoters(e, t, node, term)| >= |e.voters| / 2 + 1
  }

  lemma QuorumsMeet(a: set<NodeId>, b: set<NodeId>, all: set<NodeId>) returns (v: NodeId)
    requires IsQuorum(a, all) && IsQuorum(b, all)
    ensures v in a && v in b
  {
    if a !! b {
      assert |a + b| == |a| + |b|;
      Subset(a + b, all);
    }
    v :| v in a && v in b;
  }

  lemma {:induction false} Subset(a: set<NodeId>, b: set<NodeId>)
    requires a <= b
    ensures |a| <= |b|
  {
    assert b == a + (b - a) && a !! (b - a);
  }

  /** Lease safety: whenever the lease check passes, no leader of a higher term exists yet. */
  lemma NoHigherLeader(e: Env, t: Timing, node: NodeId, term: nat, higher: nat)
    requires Timely(e, t) && Leased(e, t, node, term) && term < higher
    ensures higher !in e.leaders
  {
    hide Voted;
    if higher in e.leaders {
      var q :| ElectedBy(e, q, higher);
      var recent := FreshVoters(e, t, node, term);
      assert recent <= e.voters.Keys;
      var v := QuorumsMeet(recent, q, e.voters.Keys);
      FreshDidNotVote(e, t, node, term, higher, v);
    }
  }

  lemma FreshDidNotVote(e: Env, t: Timing, node: NodeId, term: nat, higher: nat, v: NodeId)
    requires Timely(e, t) && Leads(e, node, term) && term < higher && v in FreshVoters(e, t, node, term)
    ensures !Voted(e, v, higher)
  {
    if v != node {
      var c := e.leaders[term].contacts[v];
      var reset := Reset(term, v, c.reset);
      assert reset in e.resets && e.time < c.reset + t.lower;
      forall vote | vote in e.votes && vote.node == v
        ensures vote.term != higher
      {
        assert vote.term > term ==> reset.time + t.lower <= vote.time;
      }
    }
  }

  // ---- Counting voters ----

  datatype ServerConfig = ServerConfig(id: NodeId, learner: bool)
  datatype Peer = Peer(id: NodeId, sinceResponse: int)

  ghost function VoterIds(configs: seq<ServerConfig>): set<NodeId> {
    set c | c in configs && !c.learner :: c.id
  }

  ghost function FreshIds(configs: seq<ServerConfig>, peers: seq<Peer>, self: NodeId, freshness: int): set<NodeId> {
    ({self} * VoterIds(configs))
    + set p | p in peers && p.id in VoterIds(configs) && p.sinceResponse <= freshness :: p.id
  }

  predicate IsVoter(configs: seq<ServerConfig>, id: NodeId) {
    exists c :: c in configs && c.id == id && !c.learner
  }

  /** The two counting loops of `has_valid_read_lease`: the answer is whether the fresh voters
      are a majority of the voters. */
  method CountLease(configs: seq<ServerConfig>, peers: seq<Peer>, self: NodeId, millis: Timing) returns (leased: bool)
    requires ValidTiming(millis)
    requires forall i, j :: 0 <= i < j < |configs| ==> configs[i].id != configs[j].id
    requires forall i, j :: 0 <= i < j < |peers| ==> peers[i].id != peers[j].id
    requires forall i :: 0 <= i < |peers| ==> peers[i].id != self
    ensures var freshness := 1000 * millis.lower - 1000 * millis.heartbeat;
            leased <==>
              && VoterIds(configs) != {}
              && |FreshIds(configs, peers, self, freshness)| >= |VoterIds(configs)| / 2 + 1
  {
    hide VoterIds, FreshIds, IsVoter;
    var voters, recent: nat := 0, 0;
    NoIds(configs, peers, self, 0);
    for i := 0 to |configs|
      invariant voters == |VoterIds(configs[..i])|
      invariant recent == |{self} * VoterIds(configs[..i])|
    {
      VoterIdsSnoc(configs, self, i);
      if !configs[i].learner {
        voters := voters + 1;
        if configs[i].id == self {
          recent := recent + 1;
        }
      }
    }
    assert configs[..|configs|] == configs;
    if voters == 0 {
      return false;
    }
    var freshness := 1000 * if millis.lower - millis.heartbeat > 1 then millis.lower - millis.heartbeat else 1;
    NoIds(configs, peers, self, freshness);
    for i := 0 to |peers|
      invariant recent == |FreshIds(configs, peers[..i], self, freshness)|
    {
      FreshIdsSnoc(configs, peers, self, freshness, i);
      if IsVoter(configs, peers[i].id) && peers[i].sinceResponse <= freshness {
        recent := recent + 1;
      }
    }
    assert peers[..|peers|] == peers;
    return recent >= voters / 2 + 1;
  }

  lemma NoIds(configs: seq<ServerConfig>, peers: seq<Peer>, self: NodeId, freshness: int)
    ensures VoterIds(configs[..0]) == {} && {self} * VoterIds(configs[..0]) == {}
    ensures FreshIds(configs, peers[..0], self, freshness) == {self} * VoterIds(configs)
  {
  }

  lemma VoterIdsSnoc(configs: seq<ServerConfig>, self: NodeId, i: nat)
    requires i < |configs| && forall i, j :: 0 <= i < j < |configs| ==> configs[i].id != configs[j].id
    ensures |VoterIds(configs[..i + 1])| == |VoterIds(configs[..i])| + (if configs[i].learner then 0 else 1)
    ensures |{self} * VoterIds(configs[..i + 1])| ==
            |{self} * VoterIds(configs[..i])| + (if !configs[i].learner && configs[i].id == self then 1 else 0)
  {
    var before, after, id := VoterIds(configs[..i]), VoterIds(configs[..i + 1]), configs[i].id;
    VoterIdsAt(configs, i);
    hide VoterIds;
    if !configs[i].learner {
      assert {self} * after == if id == self then {self} * before + {self} else {self} * before;
    }
  }

  lemma VoterIdsAt(configs: seq<ServerConfig>, i: nat)
    requires i < |configs| && forall i, j :: 0 <= i < j < |configs| ==> configs[i].id != configs[j].id
    ensures VoterIds(configs[..i + 1]) == VoterIds(configs[..i]) + (if configs[i].learner then {} else {configs[i].id})
    ensures configs[i].id !in VoterIds(configs[..i])
  {
    assert configs[..i + 1] == configs[..i] + [configs[i]];
  }

  lemma FreshIdsSnoc(configs: seq<ServerConfig>, peers: seq<Peer>, self: NodeId, freshness: int, i: nat)
    requires i < |peers| && (forall i, j :: 0 <= i < j < |peers| ==> peers[i].id != peers[j].id)
    requires forall i :: 0 <= i < |peers| ==> peers[i].id != self
    ensures |FreshIds(configs, peers[..i + 1], self, freshness)| ==
            |FreshIds(configs, peers[..i], self, freshness)|
            + (if IsVoter(configs, peers[i].id) && peers[i].sinceResponse <= freshness then 1 else 0)
  {
    hide VoterIds, IsVoter;
    VoterMeans(configs, peers[i].id);
    assert peers[..i + 1] == peers[..i] + [peers[i]];
    var before := FreshIds(configs, peers[..i], self, freshness);
    var after := FreshIds(configs, peers[..i + 1], self, freshness);
    var counts := IsVoter(configs, peers[i].id) && peers[i].sinceResponse <= freshness;
    assert after == before + (if counts then {peers[i].id} else {}) by {
      hide IsVoter;
      FreshIdsAt(configs, peers, self, freshness, i);
    }
    assert peers[i].id !in before;
  }

  lemma FreshIdsAt(configs: seq<ServerConfig>, peers: seq<Peer>, self: NodeId, freshness: int, i: nat)
    requires i < |peers|
    ensures FreshIds(configs, peers[..i + 1], self, freshness) ==
            FreshIds(configs, peers[..i], self, freshness)
            + if peers[i].id in VoterIds(configs) && peers[i].sinceResponse <= freshness then {peers[i].id} else {}
  {
    hide VoterIds;
    assert peers[..i + 1] == peers[..i] + [peers[i]];
  }

  lemma VoterMeans(configs: seq<ServerConfig>, id: NodeId)
    ensures IsVoter(configs, id) <==> id in VoterIds(configs)
  {
  }

  /** The server's reports describe the environment: every voter is configured, and each other
      voter's report is the age of its last response. */
  ghost predicate Reports(e: Env, node: NodeId, term: nat, configs: seq<ServerConfig>, peers: seq<Peer>, freshness: int)
    requires term in e.leaders
  {
    && VoterIds(configs) == e.voters.Keys
    && (forall p :: p in peers ==> p.id != node)
    && (forall p :: p in peers && p.id in e.voters && p.sinceResponse <= freshness ==> p.id in e.leaders[term].contacts)
    && (forall p :: p in peers && p.id in e.leaders[term].contacts ==>
                      p.sinceResponse == e.time - e.leaders[term].contacts[p.id].received)
    && (forall v :: v in e.leaders[term].contacts && v != node ==> exists p :: p in peers && p.id == v)
  }

  /** What the loops count is the lease's set of fresh voters. */
  lemma ReportedFreshness(e: Env, t: Timing, node: NodeId, term: nat, configs: seq<ServerConfig>, peers: seq<Peer>)
    requires term in e.leaders && Reports(e, node, term, configs, peers, t.lower - t.heartbeat)
    ensures FreshIds(configs, peers, node, t.lower - t.heartbeat) == FreshVoters(e, t, node, term)
  {
    hide VoterIds;
    var counted := FreshIds(configs, peers, node, t.lower - t.heartbeat);
    forall v | v in FreshVoters(e, t, node, term) && v != node
      ensures v in counted
    {
      var p :| p in peers && p.id == v;
    }
  }
}
