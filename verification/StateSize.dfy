/** How large states and their images can get: a log of n entries leaves at most n keys and n
    clients, and the image grows with their number and the field limit. */
module StateSize {
  import opened Bytes
  import opened BinaryCodec
  import opened Decimal
  import opened Commands
  import opened KvApply
  import opened KvStateCodec
  import opened Ordering
  import opened KvStateMachine

  // ---- Item counts ----

  lemma InsertCount<K, V>(m: map<K, V>, key: K, value: V)
    ensures |m[key := value]| <= |m| + 1
  {
    assert m[key := value].Keys == m.Keys + {key};
    assert |m[key := value].Keys| == |m[key := value]| && |m.Keys| == |m|;
  }

  lemma RemoveCount(kv: Kv, key: Bytes)
    ensures |kv - {key}| <= |kv|
  {
    assert (kv - {key}).Keys == kv.Keys - {key};
    assert |(kv - {key}).Keys| == |kv - {key}| && |kv.Keys| == |kv|;
    if key in kv {
      assert kv.Keys == (kv.Keys - {key}) + {key};
    } else {
      assert kv.Keys == kv.Keys - {key};
    }
  }

  lemma ApplyNewCount(kv: Kv, c: Command)
    ensures |ApplyNew(kv, c).0| <= |kv| + 1
  {
    hide PrintInt, ParseInt64;
    match c.kind {
      case Set => InsertCount(kv, c.key, c.value);
      case Del => RemoveCount(kv, c.key);
      case Incr => BumpCount(kv, c.key, 1);
      case Decr => BumpCount(kv, c.key, -1);
      case ReadBarrier =>
    }
  }

  lemma BumpCount(kv: Kv, key: Bytes, delta: int)
    requires delta == 1 || delta == -1
    ensures |Bump(kv, key, delta).0| <= |kv| + 1
  {
    hide PrintInt, ParseInt64;
    match Counter(kv, key) {
      case None =>
      case Some(v) => InsertCount(kv, key, PrintInt(v + delta));
    }
  }

  lemma EntryCount(s: State, index: nat, entry: LogEntry, maxField: nat)
    ensures var t := ApplyEntry(s, index, entry, maxField); |t.kv| <= |s.kv| + 1 && |t.dedup| <= |s.dedup| + 1
  {
    hide ApplyNew, DecodeCommand, What;
    if entry.App? && DecodeCommand(entry.data, maxField).Ok? {
      var c := DecodeCommand(entry.data, maxField).value;
      ApplyNewCount(s.kv, c);
      InsertCount(s.dedup, c.clientId, Record(c.requestId, ApplyNew(s.kv, c).1));
    }
  }

  /** A log of n entries leaves at most n keys and n clients. */
  lemma {:induction false} ReplayCount(log: seq<LogEntry>, maxField: nat)
    ensures |Replay(log, maxField).kv| <= |log| && |Replay(log, maxField).dedup| <= |log|
  {
    hide ApplyEntry;
    if log != [] {
      ReplayCount(log[..|log| - 1], maxField);
      EntryCount(Replay(log[..|log| - 1], maxField), |log|, log[|log| - 1], maxField);
    }
  }

  // ---- Image sizes ----

  lemma StringSize(value: Bytes)
    ensures |StringBytes(value)| == 4 + |value|
  {
  }

  lemma {:induction false} KvItemsSize(kv: Kv, keys: seq<Bytes>, maxField: nat)
    requires forall i :: 0 <= i < |keys| ==> keys[i] in kv
    requires forall k :: k in kv ==> |k| <= maxField && |kv[k]| <= maxField
    ensures |KvItems(kv, keys)| <= |keys| * (8 + 2 * maxField)
    decreases keys
  {
    hide StringBytes;
    if keys != [] {
      StringSize(keys[0]);
      StringSize(kv[keys[0]]);
      KvItemsSize(kv, keys[1..], maxField);
      assert |keys| * (8 + 2 * maxField) == |keys[1..]| * (8 + 2 * maxField) + (8 + 2 * maxField);
    }
  }

  lemma {:induction false} DedupItemsSize(dedup: map<nat, Record>, ids: seq<nat>, maxField: nat)
    requires forall i :: 0 <= i < |ids| ==> ids[i] in dedup && HasRecord(dedup, ids[i])
    requires forall c :: c in dedup ==> Storable(dedup[c].result, maxField)
    ensures |DedupItems(dedup, ids)| <= |ids| * (40 + maxField)
    decreases ids
  {
    hide ResultBytes;
    if ids != [] {
      DedupItemsSize(dedup, ids[1..], maxField);
      assert HasRecord(dedup, ids[0]);
      ResultBytesSize(dedup[ids[0]].result);
      assert |ids| * (40 + maxField) == |ids[1..]| * (40 + maxField) + (40 + maxField);
    }
  }

  lemma ImageSize(s: State, maxField: nat)
    requires WellFormed(s, maxField)
    ensures |Serialize(s, maxField)| <= 28 + |s.kv| * (8 + 2 * maxField) + |s.dedup| * (40 + maxField)
  {
    hide Lists, KvItems, DedupItems, BigEndian;
    var b := Serialize(s, maxField);
    var keys, ids :|
      Lists(LexLess, keys, s.kv.Keys) && Lists(NatLess, ids, s.dedup.Keys) && b == StateBytes(s, keys, ids, maxField);
    OrdersAreTotal();
    ListingFacts(LexLess, keys, s.kv);
    ListingFacts(NatLess, ids, s.dedup);
    FitsAll(s, keys, ids, maxField);
    KvItemsSize(s.kv, keys, maxField);
    DedupItemsSize(s.dedup, ids, maxField);
  }
}
