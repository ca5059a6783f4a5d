/** The lease check as the node makes it, from what the Raft server reports. */
module LeaseCheck {
  import opened ReadLease
  import opened Cluster

  /** The configured milliseconds as microseconds. */
  function Micros(millis: Timing): Timing {
    Timing(1000 * millis.lower, 1000 * millis.heartbeat)
  }

  /** The two counting loops decide the quorum part of the lease. */
  method HasFreshQuorum(
    configs: seq<ServerConfig>, peers: seq<Peer>, self: NodeId, millis: Timing, ghost e: Env, ghost term: nat)
    returns (leased: bool)
    requires ValidTiming(millis) && term in e.leaders
    requires forall i, j :: 0 <= i < j < |configs| ==> configs[i].id != configs[j].id
    requires forall i, j :: 0 <= i < j < |peers| ==> peers[i].id != peers[j].id
    requires Reports(e, self, term, configs, peers, Micros(millis).lower - Micros(millis).heartbeat)
    ensures leased <==> |FreshVoters(e, Micros(millis), self, term)| >= |e.voters| / 2 + 1
  {
    hide VoterIds, FreshIds, FreshVoters;
    ReportedFreshness(e, Micros(millis), self, term, configs, peers);
    assert |e.voters| == |e.voters.Keys|;
    FreshAreVoters(e, Micros(millis), self, term);
    leased := CountLease(configs, peers, self, millis);
  }

  lemma FreshAreVoters(e: Env, t: Timing, node: NodeId, term: nat)
    requires term in e.leaders
    ensures e.voters.Keys == {} ==> FreshVoters(e, t, node, term) == {}
  {
  }

  /** What the server and the state machine report when they are asked. */
  datatype Report = Report(
    isLeader: bool,
    term: nat,
    leaderStart: nat,
    committed: nat,
    applied: nat,
    configs: seq<ServerConfig>,
    peers: seq<Peer>)

  /** The report describes the node in this state of the cluster. Log indexes count from one. */
  ghost predicate Describes(r: Report, s: Cluster, node: NodeId, millis: Timing) {
    && (forall term :: Leads(s.env, node, term) <==> r.isLeader && r.term == term)
    && (r.isLeader ==> r.term in s.env.leaders && r.leaderStart == s.env.leaders[r.term].start + 1)
    && r.applied == Applied(s, node) <= r.committed
    && (forall i, j :: 0 <= i < j < |r.configs| ==> r.configs[i].id != r.configs[j].id)
    && (forall i, j :: 0 <= i < j < |r.peers| ==> r.peers[i].id != r.peers[j].id)
    && (r.isLeader ==>
          Reports(s.env, node, r.term, r.configs, r.peers, Micros(millis).lower - Micros(millis).heartbeat))
  }

  /** `has_valid_read_lease`: its answer is the lease of the model. */
  method HasValidReadLease(
    r: Report, expected: nat, self: NodeId, millis: Timing, ghost s: Cluster, ghost p: Params)
    returns (valid: bool)
    requires ValidTiming(millis) && p.timing == Micros(millis) && Describes(r, s, self, millis)
    ensures valid <==> LeaseValid(s, p, self, expected)
  {
    hide FreshVoters, Reports, Applied;
    assert Leads(s.env, self, expected) <==> r.isLeader && r.term == expected;
    if !r.isLeader || r.term != expected {
      return false;
    }
    if r.leaderStart == 0 || r.committed < r.leaderStart || r.applied < r.leaderStart {
      return false;
    }
    valid := HasFreshQuorum(r.configs, r.peers, self, millis, s.env, expected);
  }
}
