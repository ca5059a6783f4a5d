/** Applying committed commands to the key-value map and the dedup table, and what the dedup
    table achieves: it is a filter that lets each numbered request through once. */
module KvApply {
  import opened Bytes
  import opened Decimal
  import opened Commands

  type Kv = map<Bytes, Bytes>

  /** The greatest applied request of a client and the result it got. */
  datatype Record = Record(requestId: nat, result: ApplyResult)

  datatype State = State(lastIndex: nat, kv: Kv, dedup: map<nat, Record>)

  const EMPTY := State(0, map[], map[])

  predicate IsWrite(kind: CommandType) {
    kind != ReadBarrier
  }

  // ---- One command ----

  /** The current value of a counter: zero if absent, nothing if the text is not an int64. */
  function Counter(kv: Kv, key: Bytes): Option<int> {
    if key in kv then ParseInt64(kv[key]) else Some(0)
  }

  /** INCR and DECR by `delta` = 1 or -1. */
  function Bump(kv: Kv, key: Bytes, delta: int): (Kv, ApplyResult) {
    match Counter(kv, key)
    case None => (kv, ErrorResult(NotInteger, Ascii("value is not a valid int64")))
    case Some(current) =>
      if delta > 0 && current == I64_MAX then (kv, ErrorResult(Overflow, Ascii("int64 overflow")))
      else if delta < 0 && current == I64_MIN then (kv, ErrorResult(Overflow, Ascii("int64 underflow")))
      else (kv[key := PrintInt(current + delta)], IntegerResult(current + delta))
  }

  function ApplyNew(kv: Kv, c: Command): (Kv, ApplyResult) {
    match c.kind
    case Set => (kv[c.key := c.value], OkResult())
    case Del => (kv - {c.key}, IntegerResult(if c.key in kv then 1 else 0))
    case Incr => Bump(kv, c.key, 1)
    case Decr => Bump(kv, c.key, -1)
    case ReadBarrier => (kv, OkResult())
  }

  function Apply(s: State, c: Command): (State, ApplyResult) {
    if !IsWrite(c.kind) then (s, OkResult())
    else if c.clientId == 0 then
      var (kv, result) := ApplyNew(s.kv, c);
      (s.(kv := kv), result)
    else if c.requestId == 0 then
      (s, ErrorResult(BadCommand, Ascii("request_id must be non-zero when client_id is set")))
    else if c.clientId in s.dedup && c.requestId == s.dedup[c.clientId].requestId then
      (s, s.dedup[c.clientId].result)
    else if c.clientId in s.dedup && c.requestId < s.dedup[c.clientId].requestId then
      (s, ErrorResult(StaleRequest, Ascii("request_id is older than the last applied request")))
    else
      var (kv, result) := ApplyNew(s.kv, c);
      (s.(kv := kv, dedup := s.dedup[c.clientId := Record(c.requestId, result)]), result)
  }

  // ---- Runs ----

  function Run(s: State, cmds: seq<Command>): State {
    if cmds == [] then s else Apply(Run(s, cmds[..|cmds| - 1]), cmds[|cmds| - 1]).0
  }

  /** Applying commands one after the other with no dedup at all. */
  function PlainRun(kv: Kv, cmds: seq<Command>): Kv {
    if cmds == [] then kv else ApplyNew(PlainRun(kv, cmds[..|cmds| - 1]), cmds[|cmds| - 1]).0
  }

  /** The greatest request id among the client's writes, zero if there are none. */
  function GreatestId(cmds: seq<Command>, client: nat): nat {
    if cmds == [] then 0 else
    var last := cmds[|cmds| - 1];
    var before := GreatestId(cmds[..|cmds| - 1], client);
    if IsWrite(last.kind) && last.clientId == client && last.requestId > before then last.requestId else before
  }

  lemma {:induction false} GreatestIdIsMax(cmds: seq<Command>, client: nat, i: nat)
    requires i < |cmds| && IsWrite(cmds[i].kind) && cmds[i].clientId == client
    ensures cmds[i].requestId <= GreatestId(cmds, client)
  {
    if i < |cmds| - 1 {
      GreatestIdIsMax(cmds[..|cmds| - 1], client, i);
    }
  }

  /** The request takes effect: an anonymous write, or one numbered above everything its
      client sent before. */
  predicate Effective(before: seq<Command>, c: Command) {
    IsWrite(c.kind) && (c.clientId == 0 || c.requestId > GreatestId(before, c.clientId))
  }

  /** The subsequence of effective commands. */
  function Filter(cmds: seq<Command>): seq<Command> {
    if cmds == [] then [] else
    var before, last := cmds[..|cmds| - 1], cmds[|cmds| - 1];
    Filter(before) + (if Effective(before, last) then [last] else [])
  }

  /** No numbered request takes effect at two positions of a run. */
  lemma AtMostOnce(cmds: seq<Command>, p: nat, q: nat)
    requires p < q < |cmds|
    requires Effective(cmds[..p], cmds[p]) && Effective(cmds[..q], cmds[q])
    ensures cmds[p].clientId == 0 || cmds[p].clientId != cmds[q].clientId || cmds[p].requestId < cmds[q].requestId
  {
    if cmds[p].clientId == cmds[q].clientId {
      GreatestIdIsMax(cmds[..q], cmds[p].clientId, p);
    }
  }

  /** `p` is where the client's record was made: the one effective application of its
      greatest request, with the result it gave. */
  ghost predicate RecordedAt(cmds: seq<Command>, client: nat, record: Record, p: nat) {
    && p < |cmds| && cmds[p].clientId == client && cmds[p].requestId == record.requestId
    && Effective(cmds[..p], cmds[p])
    && record.result == ApplyNew(PlainRun(map[], Filter(cmds[..p])), cmds[p]).1
  }

  /** The dedup table is exactly the greatest ids with the results of their applications. */
  ghost predicate TableMatches(cmds: seq<Command>, dedup: map<nat, Record>) {
    && (forall client :: client in dedup <==> client > 0 && GreatestId(cmds, client) > 0)
    && (forall client :: client in dedup ==>
          && dedup[client].requestId == GreatestId(cmds, client)
          && exists p :: RecordedAt(cmds, client, dedup[client], p))
  }

  /** Dedup is filtering: for every command sequence, the map is what the effective commands
      alone produce without any dedup, and every record holds its client's greatest id with
      the result of that request's one application. */
  lemma {:induction false} DedupIsFiltering(cmds: seq<Command>)
    ensures Run(EMPTY, cmds).kv == PlainRun(map[], Filter(cmds))
    ensures TableMatches(cmds, Run(EMPTY, cmds).dedup)
  {
    hide Apply, PlainRun, Filter, TableMatches;
    if cmds == [] {
      NothingFiltered();
    } else {
      var before, last := cmds[..|cmds| - 1], cmds[|cmds| - 1];
      DedupIsFiltering(before);
      ApplyFilters(before, last, Run(EMPTY, before));
      assert before + [last] == cmds;
    }
  }

  lemma NothingFiltered()
    ensures PlainRun(map[], Filter([])) == map[] && TableMatches([], map[])
  {
  }

  lemma FilterSnoc(before: seq<Command>, c: Command)
    ensures GreatestId(before + [c], c.clientId) ==
            if IsWrite(c.kind) && c.requestId > GreatestId(before, c.clientId) then c.requestId
            else GreatestId(before, c.clientId)
    ensures forall client :: client != c.clientId ==> GreatestId(before + [c], client) == GreatestId(before, client)
    ensures PlainRun(map[], Filter(before + [c])) ==
            if Effective(before, c) then ApplyNew(PlainRun(map[], Filter(before)), c).0
            else PlainRun(map[], Filter(before))
  {
    hide ApplyNew;
    var all := before + [c];
    assert all[..|all| - 1] == before;
    var f := Filter(before);
    assert (f + [c])[..|f|] == f;
    assert f + [] == f;
  }

  lemma ApplyFilters(before: seq<Command>, c: Command, s: State)
    requires s.kv == PlainRun(map[], Filter(before)) && TableMatches(before, s.dedup)
    ensures Apply(s, c).0.kv == PlainRun(map[], Filter(before + [c]))
    ensures TableMatches(before + [c], Apply(s, c).0.dedup)
  {
    hide ApplyNew, PlainRun, Filter, GreatestId, RecordedAt;
    FilterSnoc(before, c);
    var cmds, t := before + [c], Apply(s, c).0;
    forall client | client in t.dedup
      ensures exists p :: RecordedAt(cmds, client, t.dedup[client], p)
    {
      if client in s.dedup && t.dedup[client] == s.dedup[client] {
        var p: nat :| RecordedAt(before, client, s.dedup[client], p);
        RecordedLater(before, c, client, s.dedup[client], p);
      } else {
        RecordedNow(before, c);
      }
    }
  }

  lemma RecordedLater(before: seq<Command>, c: Command, client: nat, record: Record, p: nat)
    requires RecordedAt(before, client, record, p)
    ensures RecordedAt(before + [c], client, record, p)
  {
    hide ApplyNew, PlainRun, Filter, GreatestId;
    assert (before + [c])[..p] == before[..p];
  }

  lemma RecordedNow(before: seq<Command>, c: Command)
    requires Effective(before, c)
    ensures var result := ApplyNew(PlainRun(map[], Filter(before)), c).1;
            RecordedAt(before + [c], c.clientId, Record(c.requestId, result), |before|)
  {
    hide ApplyNew, PlainRun, Filter, GreatestId;
    assert (before + [c])[..|before|] == before;
  }

  // ---- Counters ----

  /** The command, applied to `kv`, successfully bumps `key` by `delta`. */
  predicate Bumps(kv: Kv, c: Command, key: Bytes, delta: int) {
    && c.key == key && c.kind == (if delta > 0 then Incr else Decr)
    && ApplyNew(kv, c).1.code == Fine
  }

  /** The command does not SET or DEL the key. */
  predicate CountsOnly(c: Command, key: Bytes) {
    c.key != key || c.kind == Incr || c.kind == Decr || c.kind == ReadBarrier
  }

  /** How many of the commands successfully bump `key` by `delta`. */
  function Successes(kv: Kv, cmds: seq<Command>, key: Bytes, delta: int): nat {
    if cmds == [] then 0 else
    var before := cmds[..|cmds| - 1];
    Successes(kv, before, key, delta) + (if Bumps(PlainRun(kv, before), cmds[|cmds| - 1], key, delta) then 1 else 0)
  }

  // ---- What a key holds ----

  predicate Touches(c: Command, key: Bytes) {
    IsWrite(c.kind) && c.key == key
  }

  /** The two maps agree on the key. */
  predicate SameAt(a: Kv, b: Kv, key: Bytes) {
    (key in a <==> key in b) && (key in a ==> a[key] == b[key])
  }

  lemma NothingRun(kv: Kv)
    ensures PlainRun(kv, []) == kv
  {
  }

  lemma UntouchedStep(kv: Kv, c: Command, key: Bytes)
    requires !Touches(c, key)
    ensures SameAt(ApplyNew(kv, c).0, kv, key)
  {
    hide PrintInt, ParseInt64;
  }

  /** After any run a key holds what the last command that touched it left: the value of a SET,
      nothing after a DEL; a key that no command touched is as it was. */
  lemma {:induction false} LastWriteWins(kv: Kv, cmds: seq<Command>, p: nat, key: Bytes)
    requires p <= |cmds| && forall j :: p <= j < |cmds| ==> !Touches(cmds[j], key)
    ensures SameAt(PlainRun(kv, cmds), PlainRun(kv, cmds[..p]), key)
    ensures p > 0 && cmds[p - 1].key == key && cmds[p - 1].kind == Set ==>
              key in PlainRun(kv, cmds) && PlainRun(kv, cmds)[key] == cmds[p - 1].value
    ensures p > 0 && cmds[p - 1].key == key && cmds[p - 1].kind == Del ==> key !in PlainRun(kv, cmds)
  {
    hide Bump;
    if p < |cmds| {
      var n := |cmds| - 1;
      LastWriteWins(kv, cmds[..n], p, key);
      UntouchedStep(PlainRun(kv, cmds[..n]), cmds[n], key);
      assert cmds[..n][..p] == cmds[..p];
    } else {
      assert cmds[..p] == cmds;
    }
  }

  /** For the deduplicated run: the last effective command on the key decides what it holds. */
  lemma ReplicatedLastWrite(cmds: seq<Command>, p: nat, key: Bytes)
    requires 0 < p <= |Filter(cmds)| && forall j :: p <= j < |Filter(cmds)| ==> !Touches(Filter(cmds)[j], key)
    requires Filter(cmds)[p - 1].key == key
    ensures var last, kv := Filter(cmds)[p - 1], Run(EMPTY, cmds).kv;
            && (last.kind == Set ==> key in kv && kv[key] == last.value)
            && (last.kind == Del ==> key !in kv)
  {
    hide Filter, PlainRun, TableMatches, Run;
    DedupIsFiltering(cmds);
    LastWriteWins(map[], Filter(cmds), p, key);
  }

  /** One bump: it succeeds exactly when the value is an int64 with room, and then the stored
      text reads back as the value plus the step; otherwise nothing changes. */
  lemma BumpExact(kv: Kv, key: Bytes, delta: int)
    requires delta == 1 || delta == -1
    ensures var (kv', r) := Bump(kv, key, delta);
            var v := Counter(kv, key);
            && (r.code == Fine <==> v.Some? && I64_MIN <= v.value + delta <= I64_MAX)
            && (r.code == Fine ==>
                  && r == IntegerResult(v.value + delta)
                  && Counter(kv', key) == Some(v.value + delta) && kv' - {key} == kv - {key})
            && (r.code != Fine ==> kv' == kv)
  {
    if Counter(kv, key).Some? {
      var current := Counter(kv, key).value;
      CounterRange(kv, key);
      if I64_MIN <= current + delta <= I64_MAX {
        ParseOfPrint(current + delta);
      }
    }
  }

  lemma CounterRange(kv: Kv, key: Bytes)
    ensures Counter(kv, key).Some? ==> I64_MIN <= Counter(kv, key).value <= I64_MAX
  {
  }

  /** Conservation: through any run of commands that never SET or DEL the key, its counter
      moves by exactly one for each success, in the direction of the command, and a value that
      is not an int64 stays as it is with no success at all. */
  lemma {:induction false} CounterConservation(kv: Kv, cmds: seq<Command>, key: Bytes)
    requires forall c :: c in cmds ==> CountsOnly(c, key)
    ensures var ups, downs := Successes(kv, cmds, key, 1), Successes(kv, cmds, key, -1);
            && var after := Counter(PlainRun(kv, cmds), key);
               match Counter(kv, key)
               case Some(v) => after == Some(v + ups - downs)
               case None => after == None && ups == downs == 0
  {
    hide Counter, ApplyNew, CountsOnly;
    if cmds != [] {
      var before, c := cmds[..|cmds| - 1], cmds[|cmds| - 1];
      CounterConservation(kv, before, key);
      CounterStep(PlainRun(kv, before), c, key);
    }
  }

  lemma CounterStep(kv: Kv, c: Command, key: Bytes)
    requires CountsOnly(c, key)
    ensures var after := Counter(ApplyNew(kv, c).0, key);
            if Bumps(kv, c, key, 1) then Counter(kv, key).Some? && after == Some(Counter(kv, key).value + 1)
            else if Bumps(kv, c, key, -1) then Counter(kv, key).Some? && after == Some(Counter(kv, key).value - 1)
            else after == Counter(kv, key)
  {
    hide PrintInt, ParseInt64;
    if c.kind == Incr {
      BumpExact(kv, c.key, 1);
    } else if c.kind == Decr {
      BumpExact(kv, c.key, -1);
    }
  }

  /** For the whole deduplicated run: the counter counts effective successes only. */
  lemma ReplicatedCounter(cmds: seq<Command>, key: Bytes)
    requires forall c :: c in cmds ==> CountsOnly(c, key)
    ensures var applied := Filter(cmds);
            Counter(Run(EMPTY, cmds).kv, key)
            == Some(Successes(map[], applied, key, 1) - Successes(map[], applied, key, -1))
  {
    hide Counter, Successes, PlainRun, Run;
    DedupIsFiltering(cmds);
    FilterKeeps(cmds);
    CounterConservation(map[], Filter(cmds), key);
    assert Counter(map[], key) == Some(0) by { EmptyCounter(key); }
  }

  lemma EmptyCounter(key: Bytes)
    ensures Counter(map[], key) == Some(0)
  {
  }

  lemma {:induction false} FilterKeeps(cmds: seq<Command>)
    ensures forall c :: c in Filter(cmds) ==> c in cmds
  {
    if cmds != [] {
      FilterKeeps(cmds[..|cmds| - 1]);
    }
  }
}
