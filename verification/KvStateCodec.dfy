/** The durable image of the replicated state. */
module KvStateCodec {
  import opened Bytes
  import opened BinaryCodec
  import opened Commands
  import opened KvApply
  import opened Ordering

  const MAX_ITEMS := 100000000

  /** What the decoder demands of a state, besides the item counts. Kept by every commit. */
  ghost predicate WellFormed(s: State, maxField: nat) {
    && maxField < U32
    && (forall k :: k in s.kv ==> |k| <= maxField && |s.kv[k]| <= maxField)
    && (forall c :: c in s.dedup ==>
          0 < c < U64 && 0 < s.dedup[c].requestId < U64 && Storable(s.dedup[c].result, maxField))
  }

  /** The bounds no code keeps: the item counts the decoder accepts. */
  predicate CountsFit(s: State) {
    |s.kv| <= MAX_ITEMS && |s.dedup| <= MAX_ITEMS
  }

  // ---- Encoding ----

  function KvItems(kv: Kv, keys: seq<Bytes>): Bytes
    requires forall i :: 0 <= i < |keys| ==> keys[i] in kv
  {
    if keys == [] then [] else StringBytes(keys[0]) + StringBytes(kv[keys[0]]) + KvItems(kv, keys[1..])
  }

  predicate HasRecord(dedup: map<nat, Record>, client: nat) {
    client in dedup && I64_MIN <= dedup[client].result.integer <= I64_MAX
  }

  function RecordItem(client: nat, record: Record): Bytes
    requires I64_MIN <= record.result.integer <= I64_MAX
  {
    BigEndian(client, 8) + BigEndian(record.requestId, 8) + StringBytes(ResultBytes(record.result))
  }

  function DedupItems(dedup: map<nat, Record>, ids: seq<nat>): Bytes
    requires forall i :: 0 <= i < |ids| ==> ids[i] in dedup && HasRecord(dedup, ids[i])
  {
    if ids == [] then [] else
    assert HasRecord(dedup, ids[0]);
    RecordItem(ids[0], dedup[ids[0]]) + DedupItems(dedup, ids[1..])
  }

  function StateHead(lastIndex: nat, count: nat): Bytes {
    BigEndian(1, 2) + BigEndian(0, 2) + BigEndian(lastIndex, 8) + BigEndian(count, 8)
  }

  /** The image of a state whose maps are iterated in the given orders. */
  ghost function StateBytes(s: State, keys: seq<Bytes>, ids: seq<nat>, maxField: nat): Bytes
    requires WellFormed(s, maxField) && Lists(LexLess, keys, s.kv.Keys) && Lists(NatLess, ids, s.dedup.Keys)
  {
    StateHead(s.lastIndex, |s.kv|)
    + (KvItems(s.kv, keys) + (BigEndian(|s.dedup|, 8) + DedupItems(s.dedup, ids)))
  }

  /** `b` is the image of `s`, its maps iterated in key order. */
  ghost predicate Serializes(s: State, maxField: nat, b: Bytes)
    requires WellFormed(s, maxField)
  {
    exists keys, ids ::
      Lists(LexLess, keys, s.kv.Keys) && Lists(NatLess, ids, s.dedup.Keys) && b == StateBytes(s, keys, ids, maxField)
  }

  /** Every well-formed state has an image, and only one: equal states, however reached,
      serialize to identical bytes. */
  lemma Canonical(s: State, maxField: nat, b: Bytes, c: Bytes)
    requires WellFormed(s, maxField)
    ensures exists image :: Serializes(s, maxField, image)
    ensures Serializes(s, maxField, b) && Serializes(s, maxField, c) ==> b == c
  {
    hide WellFormed, StateBytes, Lists;
    OrdersAreTotal();
    var keys := ListingExists(LexLess, s.kv.Keys);
    var ids := ListingExists(NatLess, s.dedup.Keys);
    assert Serializes(s, maxField, StateBytes(s, keys, ids, maxField));
    if Serializes(s, maxField, b) && Serializes(s, maxField, c) {
      var kb, ib :|
        Lists(LexLess, kb, s.kv.Keys) && Lists(NatLess, ib, s.dedup.Keys) && b == StateBytes(s, kb, ib, maxField);
      var kc, ic :|
        Lists(LexLess, kc, s.kv.Keys) && Lists(NatLess, ic, s.dedup.Keys) && c == StateBytes(s, kc, ic, maxField);
      ListingUnique(LexLess, kb, kc, s.kv.Keys);
      ListingUnique(NatLess, ib, ic, s.dedup.Keys);
    }
  }

  ghost function Serialize(s: State, maxField: nat): (b: Bytes)
    requires WellFormed(s, maxField)
    ensures Serializes(s, maxField, b)
  {
    Canonical(s, maxField, [], []);
    var b :| Serializes(s, maxField, b); b
  }

  // ---- Decoding ----

  function TakeKvItems(s: Bytes, count: nat, kv: Kv, maxField: nat): Result<(Kv, Bytes)>
    decreases count
  {
    if count == 0 then Ok((kv, s)) else
    var (key, s1) :- TakeString(s, maxField);
    var (value, s2) :- TakeString(s1, maxField);
    if key in kv then Err(DuplicateKey) else TakeKvItems(s2, count - 1, kv[key := value], maxField)
  }

  function TakeRecord(s: Bytes, maxField: nat): Result<(nat, Record, Bytes)> {
    var (client, s1) :- TakeUnsigned(s, 8);
    var (requestId, s2) :- TakeUnsigned(s1, 8);
    var (size, s3) :- TakeUnsigned(s2, 4);
    var (encoded, s4) :- TakeBytes(s3, size);
    var result :- DecodeResult(encoded, maxField);
    Ok((client, Record(requestId, result), s4))
  }

  function TakeDedupItems(s: Bytes, count: nat, dedup: map<nat, Record>, maxField: nat)
    : Result<(map<nat, Record>, Bytes)>
    decreases count
  {
    if count == 0 then Ok((dedup, s)) else
    var (client, record, rest) :- TakeRecord(s, maxField);
    if client == 0 || record.requestId == 0 || client in dedup then Err(DedupRecord)
    else TakeDedupItems(rest, count - 1, dedup[client := record], maxField)
  }

  function TakeStateHead(data: Bytes): Result<(nat, nat, Bytes)> {
    var (version, s1) :- TakeUnsigned(data, 2);
    var (reserved, s2) :- TakeUnsigned(s1, 2);
    if version != 1 || reserved != 0 then Err(StateVersion) else
    var (lastIndex, s3) :- TakeUnsigned(s2, 8);
    var (count, s4) :- TakeUnsigned(s3, 8);
    if count > MAX_ITEMS then Err(ItemCount) else Ok((lastIndex, count, s4))
  }

  function DeserializeState(data: Bytes, maxField: nat): Result<State> {
    var (lastIndex, kvCount, s1) :- TakeStateHead(data);
    var (kv, s2) :- TakeKvItems(s1, kvCount, map[], maxField);
    var (dedupCount, s3) :- TakeUnsigned(s2, 8);
    if dedupCount > MAX_ITEMS then Err(DedupCount) else
    var (dedup, s4) :- TakeDedupItems(s3, dedupCount, map[], maxField);
    if s4 != [] then Err(TrailingBytes) else Ok(State(lastIndex, kv, dedup))
  }

  // ---- Round trip ----

  /** `acc` after the pairs of `m` under `keys` are inserted one by one. */
  function Gather<K(==), V>(m: map<K, V>, keys: seq<K>, acc: map<K, V>): map<K, V>
    requires forall i :: 0 <= i < |keys| ==> keys[i] in m
    decreases keys
  {
    if keys == [] then acc else Gather(m, keys[1..], acc[keys[0] := m[keys[0]]])
  }

  /** Distinct keys none of which is in `acc` yet. */
  ghost predicate AllNew<K, V>(keys: seq<K>, acc: map<K, V>) {
    && (forall i, j :: 0 <= i < j < |keys| ==> keys[i] != keys[j])
    && (forall i :: 0 <= i < |keys| ==> keys[i] !in acc)
  }

  lemma {:induction false} GatherIs<K(!new), V>(m: map<K, V>, keys: seq<K>, acc: map<K, V>)
    requires forall i :: 0 <= i < |keys| ==> keys[i] in m
    ensures forall k :: k in Gather(m, keys, acc) <==> k in keys || k in acc
    ensures forall k :: k in Gather(m, keys, acc) ==> Gather(m, keys, acc)[k] == if k in keys then m[k] else acc[k]
    decreases keys
  {
    if keys != [] {
      GatherIs(m, keys[1..], acc[keys[0] := m[keys[0]]]);
      assert keys == [keys[0]] + keys[1..];
    }
  }

  lemma GatherAll<K(!new), V>(m: map<K, V>, keys: seq<K>)
    requires forall k :: k in keys <==> k in m
    ensures forall i :: 0 <= i < |keys| ==> keys[i] in m
    ensures Gather(m, keys, map[]) == m
  {
    GatherIs(m, keys, map[]);
    var g := Gather(m, keys, map[]);
    forall k
      ensures k in g <==> k in m
      ensures k in m ==> g[k] == m[k]
    {
      assert k in g <==> k in keys;
    }
    assert g.Keys == m.Keys;
    assert g == m;
  }

  lemma AllNewTail<K, V>(keys: seq<K>, acc: map<K, V>, value: V)
    requires keys != [] && AllNew(keys, acc)
    ensures AllNew(keys[1..], acc[keys[0] := value]) && keys[0] !in acc
  {
  }

  predicate KvFits(kv: Kv, key: Bytes, maxField: nat) {
    key in kv && |key| <= maxField && |kv[key]| <= maxField
  }

  lemma {:induction false} TakeKvItemsOfKvItems(kv: Kv, keys: seq<Bytes>, acc: Kv, rest: Bytes, maxField: nat)
    requires forall i :: 0 <= i < |keys| ==> keys[i] in kv && KvFits(kv, keys[i], maxField)
    requires AllNew(keys, acc) && maxField < U32
    ensures TakeKvItems(KvItems(kv, keys) + rest, |keys|, acc, maxField) == Ok((Gather(kv, keys, acc), rest))
    decreases keys
  {
    hide TakeString, StringBytes, AllNew;
    if keys == [] {
      assert KvItems(kv, keys) + rest == rest;
    } else {
      assert KvFits(kv, keys[0], maxField);
      var key, value := keys[0], kv[keys[0]];
      var tail := KvItems(kv, keys[1..]) + rest;
      assert KvItems(kv, keys) + rest == StringBytes(key) + (StringBytes(value) + tail);
      TakeStringOfStringBytes(key, maxField, StringBytes(value) + tail);
      TakeStringOfStringBytes(value, maxField, tail);
      AllNewTail(keys, acc, value);
      TakeKvItemsOfKvItems(kv, keys[1..], acc[key := value], rest, maxField);
    }
  }

  lemma TakeRecordOfRecord(client: nat, record: Record, rest: Bytes, maxField: nat)
    requires client < U64 && record.requestId < U64 && Storable(record.result, maxField)
    requires |ResultBytes(record.result)| < U32
    ensures TakeRecord(RecordItem(client, record) + rest, maxField) == Ok((client, record, rest))
  {
    hide TakeUnsigned, TakeBytes, BigEndian, ResultBytes, DecodeResult;
    Widths();
    var encoded := ResultBytes(record.result);
    var s3 := encoded + rest;
    var s2 := BigEndian(|encoded|, 4) + s3;
    var s1 := BigEndian(record.requestId, 8) + s2;
    assert RecordItem(client, record) + rest == BigEndian(client, 8) + s1;
    TakeUnsignedOfBigEndian(client, 8, s1);
    TakeUnsignedOfBigEndian(record.requestId, 8, s2);
    TakeUnsignedOfBigEndian(|encoded|, 4, s3);
    TakeBytesOfConcat(encoded, rest);
    ResultRoundTrip(record.result, maxField);
  }

  lemma ResultBytesSize(r: ApplyResult)
    requires I64_MIN <= r.integer <= I64_MAX
    ensures |ResultBytes(r)| == 20 + |r.value|
  {
    hide BigEndian;
  }

  predicate RecordFits(dedup: map<nat, Record>, client: nat, maxField: nat) {
    && client in dedup && 0 < client < U64 && 0 < dedup[client].requestId < U64
    && Storable(dedup[client].result, maxField)
  }

  lemma {:induction false} TakeDedupOfDedup(
    dedup: map<nat, Record>, ids: seq<nat>, acc: map<nat, Record>, rest: Bytes, maxField: nat)
    requires forall i :: 0 <= i < |ids| ==>
                           ids[i] in dedup && HasRecord(dedup, ids[i]) && RecordFits(dedup, ids[i], maxField)
    requires AllNew(ids, acc) && maxField < U32 - 20
    ensures TakeDedupItems(DedupItems(dedup, ids) + rest, |ids|, acc, maxField) == Ok((Gather(dedup, ids, acc), rest))
    decreases ids
  {
    hide TakeRecord, RecordItem, AllNew;
    if ids == [] {
      assert DedupItems(dedup, ids) + rest == rest;
    } else {
      assert RecordFits(dedup, ids[0], maxField);
      var c := ids[0];
      var tail := DedupItems(dedup, ids[1..]) + rest;
      assert DedupItems(dedup, ids) + rest == RecordItem(c, dedup[c]) + tail;
      ResultBytesSize(dedup[c].result);
      TakeRecordOfRecord(c, dedup[c], tail, maxField);
      AllNewTail(ids, acc, dedup[c]);
      TakeDedupOfDedup(dedup, ids[1..], acc[c := dedup[c]], rest, maxField);
    }
  }

  lemma TakeHeadOfHead(lastIndex: nat, count: nat, rest: Bytes)
    requires lastIndex < U64 && count < U64
    ensures TakeStateHead(StateHead(lastIndex, count) + rest)
            == if count > MAX_ITEMS then Err(ItemCount) else Ok((lastIndex, count, rest))
  {
    hide TakeUnsigned, BigEndian;
    Widths();
    var s3 := BigEndian(count, 8) + rest;
    var s2 := BigEndian(lastIndex, 8) + s3;
    var s1 := BigEndian(0, 2) + s2;
    assert StateHead(lastIndex, count) + rest == BigEndian(1, 2) + s1;
    TakeUnsignedOfBigEndian(1, 2, s1);
    TakeUnsignedOfBigEndian(0, 2, s2);
    TakeUnsignedOfBigEndian(lastIndex, 8, s3);
    TakeUnsignedOfBigEndian(count, 8, rest);
  }

  /** An ascending listing has no duplicates and as many elements as the set. */
  lemma ListingFacts<K(!new), V>(less: (K, K) -> bool, keys: seq<K>, m: map<K, V>)
    requires StrictTotal(less) && Lists(less, keys, m.Keys)
    ensures |keys| == |m| && AllNew<K, V>(keys, map[])
    ensures forall k :: k in keys <==> k in m
  {
    ListingLength(less, keys, m.Keys);
  }

  lemma FitsAll(s: State, keys: seq<Bytes>, ids: seq<nat>, maxField: nat)
    requires WellFormed(s, maxField)
    requires (forall k :: k in keys <==> k in s.kv) && (forall c :: c in ids <==> c in s.dedup)
    ensures forall i :: 0 <= i < |keys| ==> keys[i] in s.kv && KvFits(s.kv, keys[i], maxField)
    ensures forall i :: 0 <= i < |ids| ==>
                          ids[i] in s.dedup && HasRecord(s.dedup, ids[i]) && RecordFits(s.dedup, ids[i], maxField)
  {
  }

  /** Serialization round trip: a well-formed state is read back exactly as it was if and only
      if its item counts are within the decoder's limits, which the serializer ignores. */
  lemma StateRoundTrip(s: State, maxField: nat, b: Bytes)
    requires WellFormed(s, maxField) && Serializes(s, maxField, b) && maxField < U32 - 20
    requires s.lastIndex < U64 && |s.kv| < U64 && |s.dedup| < U64
    ensures CountsFit(s) ==> DeserializeState(b, maxField) == Ok(s)
    ensures !CountsFit(s) ==> DeserializeState(b, maxField).Err?
  {
    hide TakeUnsigned, BigEndian, Lists, TakeStateHead, TakeKvItems, TakeDedupItems, KvItems, DedupItems, WellFormed;
    hide AllNew, KvFits, RecordFits, Gather, StateHead;
    Widths();
    OrdersAreTotal();
    var keys, ids :|
      Lists(LexLess, keys, s.kv.Keys) && Lists(NatLess, ids, s.dedup.Keys) && b == StateBytes(s, keys, ids, maxField);
    ListingFacts(LexLess, keys, s.kv);
    ListingFacts(NatLess, ids, s.dedup);
    FitsAll(s, keys, ids, maxField);
    GatherAll(s.kv, keys);
    GatherAll(s.dedup, ids);
    var items := DedupItems(s.dedup, ids);
    var s2 := BigEndian(|s.dedup|, 8) + items;
    TakeHeadOfHead(s.lastIndex, |s.kv|, KvItems(s.kv, keys) + s2);
    TakeKvItemsOfKvItems(s.kv, keys, map[], s2, maxField);
    TakeUnsignedOfBigEndian(|s.dedup|, 8, items);
    TakeDedupOfDedup(s.dedup, ids, map[], [], maxField);
    assert items + [] == items;
  }

  // ---- Decoding in place ----

  lemma {:induction false} KvItemsCount(s: Bytes, count: nat, kv: Kv, maxField: nat)
    requires TakeKvItems(s, count, kv, maxField).Ok?
    ensures |TakeKvItems(s, count, kv, maxField).value.0| == |kv| + count
    decreases count
  {
    hide TakeString;
    if count > 0 {
      var (key, s1) := TakeString(s, maxField).value;
      var (value, s2) := TakeString(s1, maxField).value;
      assert kv[key := value].Keys == kv.Keys + {key};
      assert |kv[key := value].Keys| == |kv[key := value]| && |kv.Keys| == |kv|;
      KvItemsCount(s2, count - 1, kv[key := value], maxField);
    }
  }

  lemma {:induction false} DedupItemsCount(s: Bytes, count: nat, dedup: map<nat, Record>, maxField: nat)
    requires TakeDedupItems(s, count, dedup, maxField).Ok?
    ensures |TakeDedupItems(s, count, dedup, maxField).value.0| == |dedup| + count
    decreases count
  {
    hide TakeRecord;
    if count > 0 {
      var (client, record, rest) := TakeRecord(s, maxField).value;
      assert dedup[client := record].Keys == dedup.Keys + {client};
      assert |dedup[client := record].Keys| == |dedup[client := record]| && |dedup.Keys| == |dedup|;
      DedupItemsCount(rest, count - 1, dedup[client := record], maxField);
    }
  }

  /** Whatever is decoded at all has item counts within the decoder's limits. */
  lemma DecodedCountsFit(data: Bytes, maxField: nat)
    requires DeserializeState(data, maxField).Ok?
    ensures CountsFit(DeserializeState(data, maxField).value)
  {
    hide TakeKvItems, TakeDedupItems, TakeUnsigned;
    var (lastIndex, kvCount, s1) := TakeStateHead(data).value;
    KvItemsCount(s1, kvCount, map[], maxField);
    var (kv, s2) := TakeKvItems(s1, kvCount, map[], maxField).value;
    var (dedupCount, s3) := TakeUnsigned(s2, 8).value;
    DedupItemsCount(s3, dedupCount, map[], maxField);
  }

  method DecodeResultBytes(data: Bytes, maxField: nat) returns (r: Result<ApplyResult>)
    ensures r == DecodeResult(data, maxField)
  {
    hide TakeBytes, TakeUnsigned, TakeSigned64, TakeString;
    var reader := new BinaryReader(data);
    var magic :- reader.GetBytes(4);
    if magic != RESULT_MAGIC {
      return Err(EnvelopeMagic);
    }
    var version :- reader.GetUnsigned(2);
    if version != 1 {
      return Err(ResultVersion);
    }
    var code :- reader.GetUnsigned(1);
    var kind :- reader.GetUnsigned(1);
    if CodeOf(code).None? || KindOf(kind).None? {
      return Err(ResultEnum);
    }
    var integer :- reader.GetSigned64();
    var value :- reader.GetString(maxField);
    var end := reader.AtEnd();
    if !end {
      return Err(TrailingBytes);
    }
    if KindOf(kind).value == NoPayload && value != [] {
      return Err(ResultPayload);
    }
    return Ok(ApplyResult(CodeOf(code).value, KindOf(kind).value, value, integer));
  }

  method ReadKvItems(reader: BinaryReader, count: nat, maxField: nat) returns (r: Result<Kv>)
    requires reader.Valid()
    modifies reader
    ensures reader.Valid()
    ensures TakeKvItems(old(reader.Rest()), count, map[], maxField) ==
            if r.Ok? then Ok((r.value, reader.Rest())) else Err(r.error)
  {
    hide TakeString;
    var kv: Kv := map[];
    for i := 0 to count
      invariant reader.Valid()
      invariant TakeKvItems(old(reader.Rest()), count, map[], maxField)
             == TakeKvItems(reader.Rest(), count - i, kv, maxField)
    {
      var key :- reader.GetString(maxField);
      var value :- reader.GetString(maxField);
      if key in kv {
        return Err(DuplicateKey);
      }
      kv := kv[key := value];
    }
    return Ok(kv);
  }

  method ReadDedupRecord(reader: BinaryReader, maxField: nat) returns (r: Result<(nat, Record)>)
    requires reader.Valid()
    modifies reader
    ensures reader.Valid()
    ensures TakeRecord(old(reader.Rest()), maxField) ==
            if r.Ok? then Ok((r.value.0, r.value.1, reader.Rest())) else Err(r.error)
  {
    hide TakeUnsigned, TakeBytes, DecodeResult;
    var client :- reader.GetUnsigned(8);
    var requestId :- reader.GetUnsigned(8);
    var size :- reader.GetUnsigned(4);
    var encoded :- reader.GetBytes(size);
    var result :- DecodeResultBytes(encoded, maxField);
    return Ok((client, Record(requestId, result)));
  }

  method ReadDedupItems(reader: BinaryReader, count: nat, maxField: nat) returns (r: Result<map<nat, Record>>)
    requires reader.Valid()
    modifies reader
    ensures reader.Valid()
    ensures TakeDedupItems(old(reader.Rest()), count, map[], maxField) ==
            if r.Ok? then Ok((r.value, reader.Rest())) else Err(r.error)
  {
    hide TakeRecord;
    var dedup: map<nat, Record> := map[];
    for i := 0 to count
      invariant reader.Valid()
      invariant TakeDedupItems(old(reader.Rest()), count, map[], maxField)
             == TakeDedupItems(reader.Rest(), count - i, dedup, maxField)
    {
      var item :- ReadDedupRecord(reader, maxField);
      var (client, record) := item;
      if client == 0 || record.requestId == 0 || client in dedup {
        return Err(DedupRecord);
      }
      dedup := dedup[client := record];
    }
    return Ok(dedup);
  }

  method ReadStateHead(reader: BinaryReader) returns (r: Result<(nat, nat)>)
    requires reader.Valid()
    modifies reader
    ensures reader.Valid()
    ensures TakeStateHead(old(reader.Rest())) ==
            if r.Ok? then Ok((r.value.0, r.value.1, reader.Rest())) else Err(r.error)
  {
    hide TakeUnsigned;
    var version :- reader.GetUnsigned(2);
    var reserved :- reader.GetUnsigned(2);
    if version != 1 || reserved != 0 {
      return Err(StateVersion);
    }
    var lastIndex :- reader.GetUnsigned(8);
    var count :- reader.GetUnsigned(8);
    if count > MAX_ITEMS {
      return Err(ItemCount);
    }
    return Ok((lastIndex, count));
  }

  /** `deserialize_state`. */
  method DeserializeBytes(payload: Bytes, maxField: nat) returns (r: Result<State>)
    ensures r == DeserializeState(payload, maxField)
  {
    hide TakeStateHead, TakeKvItems, TakeDedupItems, TakeUnsigned;
    var reader := new BinaryReader(payload);
    var head :- ReadStateHead(reader);
    var kv :- ReadKvItems(reader, head.1, maxField);
    var dedupCount :- reader.GetUnsigned(8);
    if dedupCount > MAX_ITEMS {
      return Err(DedupCount);
    }
    var dedup :- ReadDedupItems(reader, dedupCount, maxField);
    var end := reader.AtEnd();
    if !end {
      return Err(TrailingBytes);
    }
    return Ok(State(head.0, kv, dedup));
  }
}
