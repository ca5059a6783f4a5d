/** The client's numbering and retry loop, and exactly-once execution end to end. */
module Client {
  import opened Bytes
  import opened Resp
  import opened Commands
  import opened KvApply
  import opened CommandService

  // ---- One call ----

  /** What happens to one attempt: no connection, sent but no usable reply, or a reply. */
  datatype Attempt = NotSent | Lost | Reply(value: Value)

  const NOT_LEADER: Bytes := [78, 79, 84, 95, 76, 69, 65, 68, 69, 82]

  predicate IsRedirect(v: Value) {
    v.Error? && NOT_LEADER <= v.text
  }

  datatype CallResult = Answer(value: Value) | Unreachable | IdsExhausted | EmptyCommand

  /** The attempt ends the call: it brought a reply that is not a redirect. */
  predicate Final(a: Attempt) {
    a.Reply? && !IsRedirect(a.value)
  }

  /** Which replies end a call: all but the error texts that begin with these ten letters. */
  lemma FinalMeans(a: Attempt)
    ensures Final(a) <==>
              a.Reply? && !(a.value.Error? && |a.value.text| >= 10 && Begins(a.value.text, "NOT_LEADER"))
  {
    if a.Reply? && a.value.Error? && |a.value.text| >= 10 {
      assert Begins(a.value.text, "NOT_LEADER") <==> a.value.text[..10] == NOT_LEADER by {
        var word := "NOT_LEADER";
        assert forall i :: 0 <= i < 10 ==> NOT_LEADER[i] == word[i] as int;
      }
    }
  }

  predicate Begins(t: Bytes, word: string) {
    |t| >= |word| && forall i :: 0 <= i < |word| ==> t[i] == word[i] as int
  }

  /** How many of the first `n` attempts reached the network. */
  function Reached(environment: nat -> Attempt, n: nat): nat {
    if n == 0 then 0 else Reached(environment, n - 1) + (if environment(n - 1).NotSent? then 0 else 1)
  }

  class Client {
    const clientId: nat
    const seeds: nat
    var lastRequestId: nat

    ghost predicate Valid()
      reads this
    {
      0 < clientId < U64 && seeds > 0 && lastRequestId < U64
    }

    constructor (id: nat, seedCount: nat)
      requires id < U64 && seedCount > 0
      ensures Valid() && clientId == (if id == 0 then 1 else id) && lastRequestId == 0
    {
      clientId := if id == 0 then 1 else id;
      seeds := seedCount;
      lastRequestId := 0;
    }

    /** One command with all its retries. A write gets a fresh id once; every attempt that
        reaches the network carries the same arguments. */
    method Command(arguments: seq<Bytes>, environment: nat -> Attempt) returns (r: CallResult, sent: seq<seq<Bytes>>)
      requires Valid()
      modifies this
      ensures Valid()
      ensures var write := arguments != [] && WriteKind(Upper(arguments[0])).Some?;
              var usable := arguments != [] && !(write && old(lastRequestId) == U64 - 1);
              && lastRequestId == (if write && usable then old(lastRequestId) + 1 else old(lastRequestId))
              && (!usable ==> sent == [] && r == if arguments == [] then EmptyCommand else IdsExhausted)
              && (usable ==>
                    && (r == Unreachable ==> |sent| == Reached(environment, seeds + 3))
                    && (forall i :: 0 <= i < |sent| ==>
                          sent[i] == if write then Numbered(arguments, clientId, lastRequestId) else arguments)
                    && (r.Answer? ==>
                          exists k ::
                            && 0 <= k < seeds + 3 && Final(environment(k)) && environment(k) == Reply(r.value)
                            && |sent| == Reached(environment, k + 1)
                            && forall j :: 0 <= j < k ==> !Final(environment(j)))
                    && (r.Answer? || r == Unreachable)
                    && (r == Unreachable <==> forall k :: 0 <= k < seeds + 3 ==> !Final(environment(k))))
    {
      hide Upper, WriteKind, Numbered;
      sent := [];
      if arguments == [] {
        return EmptyCommand, sent;
      }
      var request := arguments;
      if WriteKind(Upper(arguments[0])).Some? {
        if lastRequestId == U64 - 1 {
          return IdsExhausted, sent;
        }
        lastRequestId := lastRequestId + 1;
        request := Numbered(arguments, clientId, lastRequestId);
      }
      for attempt := 0 to seeds + 3
        invariant |sent| == Reached(environment, attempt) && forall i :: 0 <= i < |sent| ==> sent[i] == request
        invariant forall j :: 0 <= j < attempt ==> !Final(environment(j))
      {
        var outcome := environment(attempt);
        if !outcome.NotSent? {
          sent := sent + [request];
        }
        if Final(outcome) {
          return Answer(outcome.value), sent;
        }
      }
      return Unreachable, sent;
    }
  }

  // ---- The whole system ----

  /** A client as the system sees it: the last id it used, the command of each id, and whether
      that last call is still outstanding. */
  datatype ClientState = ClientState(last: nat, calls: map<nat, Command>, outstanding: bool)

  /** `network` holds every command copy ever sent; any copy may be committed at any time and any
      number of times. */
  datatype System = System(clients: map<nat, ClientState>, network: set<Command>, log: seq<Command>)

  datatype Event =
    | Call(client: nat, command: Command)
    | Send(client: nat)
    | Commit(command: Command)
    | Return(client: nat)

  ghost predicate Possible(s: System, e: Event) {
    match e
    case Call(client, c) =>
      && client in s.clients && !s.clients[client].outstanding
      && c.clientId == client && c.requestId == s.clients[client].last + 1 && IsWrite(c.kind)
    case Send(client) => client in s.clients && s.clients[client].outstanding
    case Commit(c) => c in s.network || c.clientId !in s.clients
    case Return(client) => client in s.clients
  }

  function Take(s: System, e: Event): System {
    match e
    case Call(client, c) =>
      if client !in s.clients then s
      else s.(clients := s.clients[client := ClientState(c.requestId, s.clients[client].calls[c.requestId := c], true)])
    case Send(client) =>
      if client in s.clients && s.clients[client].last in s.clients[client].calls
      then s.(network := s.network + {s.clients[client].calls[s.clients[client].last]}) else s
    case Commit(c) => s.(log := s.log + [c])
    case Return(client) =>
      if client in s.clients then s.(clients := s.clients[client := s.clients[client].(outstanding := false)]) else s
  }

  /** Clients with distinct non-zero ids, nothing sent yet. */
  ghost predicate Initial(s: System) {
    && s.network == {} && s.log == []
    && forall client :: client in s.clients ==> client > 0 && s.clients[client] == ClientState(0, map[], false)
  }

  ghost predicate Run(s: System, events: seq<Event>, t: System)
    decreases events
  {
    if events == [] then s == t else Possible(s, events[0]) && Run(Take(s, events[0]), events[1..], t)
  }

  /** The command is the one its client issued under that id. */
  predicate Issued(s: System, c: Command) {
    c.clientId in s.clients ==>
      && 0 < c.requestId <= s.clients[c.clientId].last && IsWrite(c.kind)
      && c.requestId in s.clients[c.clientId].calls && s.clients[c.clientId].calls[c.requestId] == c
  }

  ghost predicate Inv(s: System) {
    && 0 !in s.clients
    && (forall client :: client in s.clients ==>
          forall id :: id in s.clients[client].calls ==>
                         0 < id <= s.clients[client].last
                         && s.clients[client].calls[id].clientId == client
                         && s.clients[client].calls[id].requestId == id && IsWrite(s.clients[client].calls[id].kind))
    && (forall c :: c in s.network ==> Issued(s, c))
    && (forall i :: 0 <= i < |s.log| ==> Issued(s, s.log[i]))
  }

  lemma InvKept(s: System, e: Event)
    requires Inv(s) && Possible(s, e)
    ensures Inv(Take(s, e))
  {
  }

  lemma {:induction false} InvRun(s: System, events: seq<Event>, t: System)
    requires Inv(s) && Run(s, events, t)
    ensures Inv(t)
    decreases events
  {
    hide Inv, Possible;
    if events != [] {
      InvKept(s, events[0]);
      InvRun(Take(s, events[0]), events[1..], t);
    }
  }

  lemma {:induction false} GreatestAtMost(cmds: seq<Command>, client: nat, bound: nat)
    requires forall i :: 0 <= i < |cmds| && cmds[i].clientId == client ==> cmds[i].requestId <= bound
    ensures GreatestId(cmds, client) <= bound
  {
    if cmds != [] {
      GreatestAtMost(cmds[..|cmds| - 1], client, bound);
    }
  }

  /** The result the state machine gives for the log entry at `p`. */
  function ResultAt(log: seq<Command>, p: nat): ApplyResult
    requires p < |log|
  {
    Apply(KvApply.Run(EMPTY, log[..p]), log[p]).1
  }

  /** `p` is the one position at which the command takes effect. */
  ghost predicate AppliedAt(log: seq<Command>, c: Command, p: nat) {
    p < |log| && log[p] == c && Effective(log[..p], c)
  }

  lemma NeverStale(kv: Kv, c: Command)
    ensures ApplyNew(kv, c).1.code != StaleRequest
  {
  }

  /** Exactly once, end to end: in every run of any number of clients that number their writes
      and retry them any number of times over any interleaving, whatever copy of an outstanding
      call is committed, its result is that of the call's single application (made at or before
      that copy) and never STALE_REQUEST. */
  lemma ExactlyOnce(s: System, events: seq<Event>, t: System, client: nat, p: nat)
    requires Initial(s) && Run(s, events, t)
    requires client in t.clients && t.clients[client].outstanding
    requires p < |t.log| && t.log[p].clientId == client && t.log[p].requestId == t.clients[client].last
    ensures ResultAt(t.log, p).code != StaleRequest
    ensures exists q: nat :: q <= p && AppliedAt(t.log, t.log[p], q)
                        && ResultAt(t.log, p) == ApplyNew(PlainRun(map[], Filter(t.log[..q])), t.log[p]).1
  {
    hide Apply, ApplyNew, Filter, PlainRun, GreatestId, KvApply.Run;
    InvRun(s, events, t);
    var c, before := t.log[p], t.log[..p];
    assert Issued(t, c);
    forall i | 0 <= i < |before| && before[i].clientId == client
      ensures before[i].requestId <= c.requestId
    {
      assert Issued(t, t.log[i]);
    }
    GreatestAtMost(before, client, c.requestId);
    DedupIsFiltering(before);
    ApplyDecides(before, c);
    NeverStale(PlainRun(map[], Filter(before)), c);
    if Effective(before, c) {
      assert AppliedAt(t.log, c, p);
    } else {
      var record := KvApply.Run(EMPTY, before).dedup[client];
      var q: nat :| RecordedAt(before, client, record, q);
      assert Issued(t, t.log[q]) && t.log[q] == before[q];
      assert before[..q] == t.log[..q];
      assert AppliedAt(t.log, c, q);
      NeverStale(PlainRun(map[], Filter(t.log[..q])), c);
    }
  }

  /** A numbered write that is not below its client's greatest id is applied or answered from the
      dedup table. */
  lemma ApplyDecides(before: seq<Command>, c: Command)
    requires IsWrite(c.kind) && c.clientId > 0 && c.requestId > 0 && GreatestId(before, c.clientId) <= c.requestId
    requires TableMatches(before, KvApply.Run(EMPTY, before).dedup)
    requires KvApply.Run(EMPTY, before).kv == PlainRun(map[], Filter(before))
    ensures Effective(before, c) ==>
              Apply(KvApply.Run(EMPTY, before), c).1 == ApplyNew(PlainRun(map[], Filter(before)), c).1
    ensures !Effective(before, c) ==>
              && c.clientId in KvApply.Run(EMPTY, before).dedup
              && KvApply.Run(EMPTY, before).dedup[c.clientId].requestId == c.requestId
              && Apply(KvApply.Run(EMPTY, before), c).1 == KvApply.Run(EMPTY, before).dedup[c.clientId].result
  {
    hide ApplyNew, Filter, PlainRun, GreatestId, KvApply.Run, RecordedAt;
  }

  /** And that application is unique: no other position of the log applies the same request. */
  lemma AppliedOnce(log: seq<Command>, c: Command, p: nat, q: nat)
    requires c.clientId > 0 && AppliedAt(log, c, p) && AppliedAt(log, c, q)
    ensures p == q
  {
    if p < q {
      AtMostOnce(log, p, q);
    } else if q < p {
      AtMostOnce(log, q, p);
    }
  }
}
