/** What the state machine answers, said by effects and by the requests that came before. */
module Answers {
  import opened Bytes
  import opened Decimal
  import opened Commands
  import opened KvApply
  import opened KvStateMachine

  // ---- One command ----

  /** DEL answers how many keys it removed, and removes no other. */
  lemma DelCounts(kv: Kv, c: Command)
    requires c.kind == Del
    ensures var (after, r) := ApplyNew(kv, c);
            r == IntegerResult(|kv| - |after|) && after.Keys == kv.Keys - {c.key} && after == kv - {c.key}
  {
    hide Bump;
    RemovedKeys(kv, c.key);
  }

  lemma RemovedKeys(kv: Kv, key: Bytes)
    ensures (kv - {key}).Keys == kv.Keys - {key}
    ensures |kv| - |kv - {key}| == if key in kv then 1 else 0
  {
    var keys, after := kv.Keys, (kv - {key}).Keys;
    assert after == keys - {key};
    assert |after| == |kv - {key}| && |keys| == |kv|;
    RemovedCount(keys, key);
  }

  lemma RemovedCount(keys: set<Bytes>, key: Bytes)
    ensures |keys - {key}| == if key in keys then |keys| - 1 else |keys|
  {
    if key in keys {
      assert keys == (keys - {key}) + {key};
    } else {
      assert keys - {key} == keys;
    }
  }

  /** SET stores its value under its key and says no more than that it did; a barrier does nothing
      and says the same. */
  lemma SetAnswers(kv: Kv, c: Command)
    requires c.kind == Set || c.kind == ReadBarrier
    ensures var (after, r) := ApplyNew(kv, c);
            && r.code == Fine && r.kind == NoPayload && r.value == [] && r.integer == 0
            && (c.kind == ReadBarrier ==> after == kv)
            && (c.kind == Set ==>
                  after.Keys == kv.Keys + {c.key} && after[c.key] == c.value && after - {c.key} == kv - {c.key})
  {
  }

  /** Why a counter does not move: its text is no int64, or it is at the bound. */
  lemma BumpRefusals(kv: Kv, c: Command)
    requires c.kind == Incr || c.kind == Decr
    ensures var (after, r) := ApplyNew(kv, c);
            var text := if c.key in kv then kv[c.key] else [48];
            && (r.code == NotInteger <==> ParseInt64(text) == None)
            && (r.code == Overflow <==> ParseInt64(text) == Some(if c.kind == Incr then I64_MAX else I64_MIN))
            && (r.code == Fine ==>
                  && r.kind == IntegerPayload
                  && r.integer - ParseInt64(text).value == if c.kind == Incr then 1 else -1)
            && (r.code == Fine || r.code == NotInteger || r.code == Overflow)
  {
    hide PrintInt, ParseInt64;
    ZeroParses();
  }

  lemma ZeroParses()
    ensures ParseInt64([48]) == Some(0)
  {
    assert Fold(0, [48]) == 0;
  }

  /** Only these three answers come out of applying a command. */
  lemma AppliedCodes(kv: Kv, c: Command)
    ensures var code := ApplyNew(kv, c).1.code; code == Fine || code == NotInteger || code == Overflow
  {
    hide PrintInt, ParseInt64;
  }

  /** Every answer that is not OK carries a text and no number. */
  lemma ErrorsCarryText(kv: Kv, c: Command)
    ensures var r := ApplyNew(kv, c).1;
            r.code != Fine ==> r.kind == StringPayload && r.value != [] && r.integer == 0
  {
    hide PrintInt, ParseInt64;
  }

  // ---- Presence over runs ----

  lemma TouchedPresence(kv: Kv, c: Command)
    requires IsWrite(c.kind)
    ensures c.key in ApplyNew(kv, c).0 <==> c.kind != Del
  {
    hide PrintInt, ParseInt64;
  }

  /** A key is present exactly when the last command that touched it was not a DEL. */
  lemma PresentAfter(cmds: seq<Command>, p: nat, key: Bytes)
    requires p <= |cmds| && forall j :: p <= j < |cmds| ==> !Touches(cmds[j], key)
    requires p == 0 || Touches(cmds[p - 1], key)
    ensures key in PlainRun(map[], cmds) <==> p > 0 && cmds[p - 1].kind != Del
  {
    hide ApplyNew, IsWrite;
    LastWriteWins(map[], cmds, p, key);
    if p == 0 {
      assert cmds[..0] == [];
      NothingRun(map[]);
    } else {
      assert cmds[..p][..p - 1] == cmds[..p - 1];
      WriteTouches(cmds[p - 1], key);
      TouchedPresence(PlainRun(map[], cmds[..p - 1]), cmds[p - 1]);
    }
  }

  lemma WriteTouches(c: Command, key: Bytes)
    requires Touches(c, key)
    ensures IsWrite(c.kind) && c.key == key
  {
  }

  /** Over a run, a DEL answers one exactly when some command touched its key and the last one that
      did was not a DEL, and zero otherwise. */
  lemma DelAnswers(cmds: seq<Command>, p: nat, c: Command)
    requires c.kind == Del && p <= |cmds| && forall j :: p <= j < |cmds| ==> !Touches(cmds[j], c.key)
    requires p == 0 || Touches(cmds[p - 1], c.key)
    ensures ApplyNew(PlainRun(map[], cmds), c).1
            == IntegerResult(if p > 0 && cmds[p - 1].kind != Del then 1 else 0)
  {
    hide PlainRun, Touches;
    PresentAfter(cmds, p, c.key);
    DelCounts(PlainRun(map[], cmds), c);
  }

  // ---- The dedup decision ----

  lemma {:induction false} GreatestIdAttained(cmds: seq<Command>, client: nat) returns (i: nat)
    requires GreatestId(cmds, client) > 0
    ensures i < |cmds| && IsWrite(cmds[i].kind) && cmds[i].clientId == client
    ensures cmds[i].requestId == GreatestId(cmds, client)
  {
    hide IsWrite;
    var n := |cmds| - 1;
    var last := cmds[n];
    if IsWrite(last.kind) && last.clientId == client && last.requestId > GreatestId(cmds[..n], client) {
      i := n;
    } else {
      i := GreatestIdAttained(cmds[..n], client);
    }
  }

  /** What happens to a write of a numbering client, by the ids it has used: zero is a bad command,
      an id below the greatest is stale, and both change nothing; the greatest again is answered
      with the result of its one application; a higher one is applied and remembered. */
  lemma NumberedAnswers(before: seq<Command>, c: Command)
    requires IsWrite(c.kind) && c.clientId > 0
    ensures var s, g := Run(EMPTY, before), GreatestId(before, c.clientId);
            var (t, r) := Apply(s, c);
            && (r.code == BadCommand <==> c.requestId == 0)
            && (r.code == StaleRequest <==> 0 < c.requestId < g)
            && (r.code == BadCommand || r.code == StaleRequest ==> r.kind == StringPayload && r.value != [])
            && (c.requestId <= g ==> t == s)
            && (0 < c.requestId == g ==> Recorded(before, c.clientId, Record(g, r)))
            && (c.requestId > g ==>
                  && (t.kv, r) == ApplyNew(s.kv, c)
                  && t == s.(kv := t.kv, dedup := s.dedup[c.clientId := Record(c.requestId, r)]))
  {
    hide ApplyNew, Filter, PlainRun, GreatestId, Run, RecordedAt;
    DedupIsFiltering(before);
    var s := Run(EMPTY, before);
    AppliedCodes(s.kv, c);
    if c.clientId in s.dedup {
      var p: nat :| RecordedAt(before, c.clientId, s.dedup[c.clientId], p);
      RecordedCode(before, c.clientId, s.dedup[c.clientId], p);
      assert Recorded(before, c.clientId, s.dedup[c.clientId]);
    }
  }

  ghost predicate Recorded(cmds: seq<Command>, client: nat, record: Record) {
    exists p: nat :: RecordedAt(cmds, client, record, p)
  }

  lemma RecordedCode(cmds: seq<Command>, client: nat, record: Record, p: nat)
    requires RecordedAt(cmds, client, record, p)
    ensures record.result.code != StaleRequest && record.result.code != BadCommand
  {
    hide ApplyNew, Filter, PlainRun, GreatestId;
    AppliedCodes(PlainRun(map[], Filter(cmds[..p])), cmds[p]);
  }

  /** The answer of an effective DEL in a deduplicated run, by the effective commands before it. */
  lemma ReplicatedDelAnswers(before: seq<Command>, c: Command, p: nat)
    requires c.kind == Del && Effective(before, c) && p <= |Filter(before)|
    requires forall j :: p <= j < |Filter(before)| ==> !Touches(Filter(before)[j], c.key)
    requires p == 0 || Touches(Filter(before)[p - 1], c.key)
    ensures Apply(Run(EMPTY, before), c).1
            == IntegerResult(if p > 0 && Filter(before)[p - 1].kind != Del then 1 else 0)
  {
    hide ApplyNew, Filter, PlainRun, GreatestId, Run, TableMatches, Touches;
    DedupIsFiltering(before);
    DelAnswers(Filter(before), p, c);
    if c.clientId == 0 {
      AnonymousAnswers(Run(EMPTY, before), c);
    } else {
      NumberedAnswers(before, c);
    }
  }

  /** A write without a client id is always applied and never remembered; a barrier changes
      nothing. */
  lemma AnonymousAnswers(s: State, c: Command)
    requires c.clientId == 0 || !IsWrite(c.kind)
    ensures var (t, r) := Apply(s, c);
            && (IsWrite(c.kind) ==> (t.kv, r) == ApplyNew(s.kv, c) && t == s.(kv := t.kv))
            && (!IsWrite(c.kind) ==> t == s && r.code == Fine && r.kind == NoPayload)
    ensures IsWrite(c.kind) <==> c.kind != ReadBarrier
  {
    hide ApplyNew;
  }

  // ---- Entries ----

  /** An entry that does not decode is answered as a bad command and changes only the index, which
      is all that a configuration entry changes. */
  lemma UndecodableAnswers(s: State, index: nat, data: Bytes, maxField: nat)
    requires DecodeCommand(data, maxField).Err?
    ensures CommitData(s, index, data, maxField).1.code == BadCommand
    ensures CommitData(s, index, data, maxField).0 == s.(lastIndex := index)
    ensures ApplyEntry(s, index, App(data), maxField) == ApplyEntry(s, index, Config, maxField)
  {
    hide DecodeCommand, What;
  }

  /** One that does is answered as its command is, under its index. */
  lemma DecodableAnswers(s: State, index: nat, c: Command, maxField: nat)
    requires Encodable(c) && FieldsWithin(c, maxField)
    ensures CommitData(s, index, CommandBytes(c), maxField)
            == (Apply(s, c).0.(lastIndex := index), Apply(s, c).1)
  {
    hide DecodeCommand, CommandBytes, Apply;
    CommandRoundTrip(c, maxField);
  }
}
