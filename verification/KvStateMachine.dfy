/** The replicated state machine: committing log entries, and the class that does so in place
    together with its result cache and its state image. */
module KvStateMachine {
  import opened Bytes
  import opened BinaryCodec
  import opened Decimal
  import opened Commands
  import opened KvApply
  import opened KvStateCodec
  import opened Ordering
  import opened SortedMap
  import Cache = ResultCache

  /** The smallest field limit the configuration accepts. */
  const MIN_FIELD := 64

  datatype LogEntry = App(data: Bytes) | Config

  /** The text of a decoding exception. */
  function What(fault: Fault): Bytes {
    match fault
    case Truncated => Ascii("truncated binary payload")
    case StringTooLong => Ascii("binary string exceeds configured limit")
    case TrailingBytes => Ascii("trailing bytes in binary payload")
    case EnvelopeMagic => Ascii("invalid binary envelope magic")
    case CommandVersion => Ascii("unsupported command version")
    case UnknownCommand => Ascii("unknown command type")
    case _ => Ascii("non-zero reserved command byte")
  }

  function Rejected(fault: Fault): ApplyResult {
    ErrorResult(BadCommand, Ascii("invalid replicated command: ") + What(fault))
  }

  // ---- One committed entry ----

  function CommitData(s: State, index: nat, data: Bytes, maxField: nat): (State, ApplyResult) {
    match DecodeCommand(data, maxField)
    case Ok(c) => var (t, r) := Apply(s, c); (t.(lastIndex := index), r)
    case Err(fault) => (s.(lastIndex := index), Rejected(fault))
  }

  function ApplyEntry(s: State, index: nat, entry: LogEntry, maxField: nat): State {
    match entry
    case App(data) => CommitData(s, index, data, maxField).0
    case Config => s.(lastIndex := index)
  }

  /** The state after a whole committed log, whose entries are numbered from one. */
  function Replay(log: seq<LogEntry>, maxField: nat): (s: State)
    ensures s.lastIndex == |log|
  {
    if log == [] then EMPTY
    else ApplyEntry(Replay(log[..|log| - 1], maxField), |log|, log[|log| - 1], maxField)
  }

  /** The commands of a log that decode. */
  function Decoded(log: seq<LogEntry>, maxField: nat): seq<Command> {
    if log == [] then [] else
    var before := Decoded(log[..|log| - 1], maxField);
    match log[|log| - 1]
    case App(data) =>
      (match DecodeCommand(data, maxField)
       case Ok(c) => before + [c]
       case Err(_) => before)
    case Config => before
  }

  lemma {:induction false} ReplayRuns(log: seq<LogEntry>, maxField: nat)
    ensures var s := Replay(log, maxField);
            s.(lastIndex := 0) == Run(EMPTY, Decoded(log, maxField)) && s.lastIndex == |log|
  {
    hide Apply, DecodeCommand;
    if log != [] {
      var n := |log| - 1;
      ReplayRuns(log[..n], maxField);
      var before := Decoded(log[..n], maxField);
      match log[n] {
        case App(data) =>
          match DecodeCommand(data, maxField) {
            case Ok(c) =>
              assert (before + [c])[..|before|] == before;
              ApplyIgnoresIndex(Replay(log[..n], maxField), c);
            case Err(_) =>
          }
        case Config =>
      }
    }
  }

  lemma ApplyIgnoresIndex(s: State, c: Command)
    ensures Apply(s.(lastIndex := 0), c).0 == Apply(s, c).0.(lastIndex := 0)
    ensures Apply(s.(lastIndex := 0), c).1 == Apply(s, c).1
  {
    hide ApplyNew;
  }

  /** For every committed log: the replicated map is what its effective commands alone produce,
      and the dedup table is exactly the greatest ids with their one result. */
  lemma ReplayIsFiltering(log: seq<LogEntry>, maxField: nat)
    ensures var s, cmds := Replay(log, maxField), Decoded(log, maxField);
            s.kv == PlainRun(map[], Filter(cmds)) && TableMatches(cmds, s.dedup)
  {
    hide PlainRun, Filter, TableMatches, Run;
    ReplayRuns(log, maxField);
    DedupIsFiltering(Decoded(log, maxField));
  }

  // ---- The invariant that makes every state serializable ----

  lemma BumpStorable(kv: Kv, key: Bytes, delta: int, maxField: nat)
    requires delta == 1 || delta == -1
    requires MIN_FIELD <= maxField < U32
    ensures Storable(Bump(kv, key, delta).1, maxField)
    ensures forall k :: k in Bump(kv, key, delta).0 ==>
                          (k in kv && Bump(kv, key, delta).0[k] == kv[k])
                          || (k == key && |Bump(kv, key, delta).0[k]| <= 20)
  {
    hide PrintInt, ParseInt64;
    BumpExact(kv, key, delta);
    CounterRange(kv, key);
    match Counter(kv, key) {
      case None =>
      case Some(v) =>
        if I64_MIN <= v + delta <= I64_MAX {
          PrintInt64Length(v + delta);
        }
    }
  }

  lemma ApplyNewFits(kv: Kv, c: Command, maxField: nat)
    requires MIN_FIELD <= maxField < U32 && FieldsWithin(c, maxField)
    requires forall k :: k in kv ==> |k| <= maxField && |kv[k]| <= maxField
    ensures Storable(ApplyNew(kv, c).1, maxField)
    ensures forall k :: k in ApplyNew(kv, c).0 ==> |k| <= maxField && |ApplyNew(kv, c).0[k]| <= maxField
  {
    hide Bump;
    match c.kind {
      case Incr => BumpStorable(kv, c.key, 1, maxField);
      case Decr => BumpStorable(kv, c.key, -1, maxField);
      case _ =>
    }
  }

  lemma ApplyKeepsWellFormed(s: State, c: Command, maxField: nat)
    requires WellFormed(s, maxField) && MIN_FIELD <= maxField && Commands.Encodable(c) && FieldsWithin(c, maxField)
    ensures WellFormed(Apply(s, c).0, maxField)
  {
    hide ApplyNew, Storable;
    ApplyNewFits(s.kv, c, maxField);
  }

  /** Every committed entry, decodable or not, keeps the state well-formed. */
  lemma CommitKeepsWellFormed(s: State, index: nat, entry: LogEntry, maxField: nat)
    requires WellFormed(s, maxField) && MIN_FIELD <= maxField
    ensures WellFormed(ApplyEntry(s, index, entry, maxField), maxField)
  {
    hide Apply, DecodeCommand, Storable;
    match entry {
      case App(data) =>
        match DecodeCommand(data, maxField) {
          case Ok(c) =>
            AcceptedCommand(data, maxField);
            ApplyKeepsWellFormed(s, c, maxField);
          case Err(_) =>
        }
      case Config =>
    }
  }

  lemma {:induction false} ReplayWellFormed(log: seq<LogEntry>, maxField: nat)
    requires MIN_FIELD <= maxField < U32
    ensures WellFormed(Replay(log, maxField), maxField)
  {
    hide ApplyEntry, Storable;
    if log != [] {
      ReplayWellFormed(log[..|log| - 1], maxField);
      CommitKeepsWellFormed(Replay(log[..|log| - 1], maxField), |log|, log[|log| - 1], maxField);
    }
  }

  /** Every reachable state survives serialization, if and only if its item counts fit. */
  lemma ReachableRoundTrip(log: seq<LogEntry>, maxField: nat, b: Bytes)
    requires MIN_FIELD <= maxField < U32 - 20 && |log| < U64
    requires WellFormed(Replay(log, maxField), maxField) ==> Serializes(Replay(log, maxField), maxField, b)
    requires |Replay(log, maxField).kv| < U64 && |Replay(log, maxField).dedup| < U64
    ensures CountsFit(Replay(log, maxField)) <==> DeserializeState(b, maxField) == Ok(Replay(log, maxField))
  {
    hide Replay, Serializes, DeserializeState, WellFormed;
    ReplayWellFormed(log, maxField);
    StateRoundTrip(Replay(log, maxField), maxField, b);
  }

  // ---- Serializing in place ----

  lemma {:induction false} KvItemsSnoc(kv: Kv, keys: seq<Bytes>, key: Bytes)
    requires (forall i :: 0 <= i < |keys| ==> keys[i] in kv) && key in kv
    ensures KvItems(kv, keys + [key]) == KvItems(kv, keys) + (StringBytes(key) + StringBytes(kv[key]))
    decreases keys
  {
    hide StringBytes;
    if keys == [] {
      assert (keys + [key])[1..] == [];
    } else {
      KvItemsSnoc(kv, keys[1..], key);
      assert (keys + [key])[1..] == keys[1..] + [key];
    }
  }

  lemma {:induction false} DedupItemsSnoc(dedup: map<nat, Record>, ids: seq<nat>, id: nat)
    requires (forall i :: 0 <= i < |ids| ==> ids[i] in dedup && HasRecord(dedup, ids[i])) && HasRecord(dedup, id)
    ensures DedupItems(dedup, ids + [id]) == DedupItems(dedup, ids) + RecordItem(id, dedup[id])
    decreases ids
  {
    hide RecordItem;
    if ids == [] {
      assert (ids + [id])[1..] == [];
    } else {
      DedupItemsSnoc(dedup, ids[1..], id);
      assert (ids + [id])[1..] == ids[1..] + [id];
    }
  }

  lemma ListsSnoc<T(!new)>(less: (T, T) -> bool, keys: seq<T>, all: set<T>, rest: set<T>, least: T)
    requires StrictTotal(less) && Lists(less, keys, all - rest) && rest <= all && IsLeast(less, least, rest)
    requires forall k, j :: k in keys && j in rest ==> less(k, j)
    ensures Lists(less, keys + [least], all - (rest - {least}))
    ensures forall k, j :: k in keys + [least] && j in rest - {least} ==> less(k, j)
  {
  }

  /** The loop over the key-value map, in key order. */
  method WriteKvItems(kv: Kv, ghost maxField: nat) returns (items: Bytes, ghost keys: seq<Bytes>)
    requires forall k :: k in kv ==> |k| <= maxField && |kv[k]| <= maxField
    ensures Lists(LexLess, keys, kv.Keys) && items == KvItems(kv, keys)
  {
    hide KvItems, StringBytes, LexLess;
    OrdersAreTotal();
    var rest := kv.Keys;
    items, keys := [], [];
    assert KvItems(kv, []) == [] by { NoItems(kv); }
    while rest != {}
      invariant rest <= kv.Keys && Lists(LexLess, keys, kv.Keys - rest)
      invariant forall k, j :: k in keys && j in rest ==> LexLess(k, j)
      invariant forall i :: 0 <= i < |keys| ==> keys[i] in kv
      invariant items == KvItems(kv, keys)
      decreases |rest|
    {
      LeastExists(LexLess, rest);
      var key :| key in rest && IsLeast(LexLess, key, rest);
      KvItemsSnoc(kv, keys, key);
      ListsSnoc(LexLess, keys, kv.Keys, rest, key);
      items := items + (StringBytes(key) + StringBytes(kv[key]));
      keys := keys + [key];
      rest := rest - {key};
    }
    assert kv.Keys - rest == kv.Keys;
  }

  lemma NoItems(kv: Kv)
    ensures KvItems(kv, []) == [] && DedupItems(map[], []) == []
  {
  }

  /** The loop over the dedup table, in client order. */
  method WriteDedupItems(dedup: map<nat, Record>) returns (items: Bytes, ghost ids: seq<nat>)
    requires forall c :: c in dedup ==> HasRecord(dedup, c)
    ensures Lists(NatLess, ids, dedup.Keys) && items == DedupItems(dedup, ids)
  {
    hide DedupItems, RecordItem;
    OrdersAreTotal();
    var rest := dedup.Keys;
    items, ids := [], [];
    assert DedupItems(dedup, []) == [] by { NoRecords(dedup); }
    while rest != {}
      invariant rest <= dedup.Keys && Lists(NatLess, ids, dedup.Keys - rest)
      invariant forall k, j :: k in ids && j in rest ==> NatLess(k, j)
      invariant forall i :: 0 <= i < |ids| ==> ids[i] in dedup && HasRecord(dedup, ids[i])
      invariant items == DedupItems(dedup, ids)
      decreases |rest|
    {
      LeastExists(NatLess, rest);
      var id :| id in rest && IsLeast(NatLess, id, rest);
      assert HasRecord(dedup, id);
      DedupItemsSnoc(dedup, ids, id);
      ListsSnoc(NatLess, ids, dedup.Keys, rest, id);
      items := items + RecordItem(id, dedup[id]);
      ids := ids + [id];
      rest := rest - {id};
    }
    assert dedup.Keys - rest == dedup.Keys;
  }

  lemma NoRecords(dedup: map<nat, Record>)
    ensures DedupItems(dedup, []) == []
  {
  }

  lemma WellFormedParts(s: State, maxField: nat)
    requires WellFormed(s, maxField)
    ensures forall k :: k in s.kv ==> |k| <= maxField && |s.kv[k]| <= maxField
    ensures forall c :: c in s.dedup ==> HasRecord(s.dedup, c)
  {
  }

  lemma ListedIsSerialized(s: State, keys: seq<Bytes>, ids: seq<nat>, kvItems: Bytes, dedupItems: Bytes, maxField: nat)
    requires WellFormed(s, maxField) && Lists(LexLess, keys, s.kv.Keys) && Lists(NatLess, ids, s.dedup.Keys)
    requires kvItems == KvItems(s.kv, keys) && dedupItems == DedupItems(s.dedup, ids)
    ensures Serializes(s, maxField, StateHead(s.lastIndex, |s.kv|) + (kvItems + (BigEndian(|s.dedup|, 8) + dedupItems)))
  {
    hide KvItems, DedupItems, StateHead, BigEndian, Storable;
    assert StateBytes(s, keys, ids, maxField)
        == StateHead(s.lastIndex, |s.kv|) + (kvItems + (BigEndian(|s.dedup|, 8) + dedupItems));
  }

  /** `serialize_state_locked`. */
  method SerializeState(s: State, ghost maxField: nat) returns (b: Bytes)
    requires WellFormed(s, maxField)
    ensures Serializes(s, maxField, b)
  {
    hide BigEndian, KvItems, DedupItems, Lists, WellFormed, HasRecord, StateHead, Serializes;
    WellFormedParts(s, maxField);
    var kvItems, keys := WriteKvItems(s.kv, maxField);
    var dedupItems, ids := WriteDedupItems(s.dedup);
    b := WriteState(s.lastIndex, |s.kv|, kvItems, |s.dedup|, dedupItems);
    ListedIsSerialized(s, keys, ids, kvItems, dedupItems, maxField);
  }

  method WriteState(lastIndex: nat, kvCount: nat, kvItems: Bytes, dedupCount: nat, dedupItems: Bytes) returns (b: Bytes)
    ensures b == StateHead(lastIndex, kvCount) + (kvItems + (BigEndian(dedupCount, 8) + dedupItems))
  {
    hide BigEndian, StateHead;
    var writer := new BinaryWriter();
    WriteStateHead(writer, lastIndex, kvCount);
    writer.PutRaw(kvItems);
    writer.PutUnsigned(dedupCount, 8);
    writer.PutRaw(dedupItems);
    b := writer.data;
  }

  method WriteStateHead(writer: BinaryWriter, lastIndex: nat, count: nat)
    requires writer.data == []
    modifies writer
    ensures writer.data == StateHead(lastIndex, count)
  {
    hide BigEndian;
    writer.PutUnsigned(1, 2);
    writer.PutUnsigned(0, 2);
    writer.PutUnsigned(lastIndex, 8);
    writer.PutUnsigned(count, 8);
  }

  // ---- The class ----

  function Lookup(kv: Kv, key: Bytes): Option<Bytes> {
    if key in kv then Some(kv[key]) else None
  }

  class KvStateMachine {
    const maxField: nat
    var state: State
    var recent: SortedMap<ApplyResult>

    constructor (limit: nat)
      requires limit > 0
      ensures maxField == limit && state == EMPTY && recent == []
    {
      maxField := limit;
      state := EMPTY;
      recent := [];
    }

    method ApplyNewRequest(c: Command) returns (r: ApplyResult)
      modifies this`state
      ensures r == ApplyNew(old(state.kv), c).1
      ensures state == old(state).(kv := ApplyNew(old(state.kv), c).0)
    {
      match c.kind {
        case Set =>
          state := state.(kv := state.kv[c.key := c.value]);
          r := OkResult();
        case Del =>
          var erased := if c.key in state.kv then 1 else 0;
          state := state.(kv := state.kv - {c.key});
          r := IntegerResult(erased);
        case Incr =>
          r := BumpKey(c.key, 1);
        case Decr =>
          r := BumpKey(c.key, -1);
        case ReadBarrier =>
          r := OkResult();
      }
    }

    method BumpKey(key: Bytes, delta: int) returns (r: ApplyResult)
      requires delta == 1 || delta == -1
      modifies this`state
      ensures r == Bump(old(state.kv), key, delta).1
      ensures state == old(state).(kv := Bump(old(state.kv), key, delta).0)
    {
      hide ParseInt64, PrintInt;
      var current := 0;
      if key in state.kv {
        var parsed := ParseInt64Text(state.kv[key]);
        if parsed.None? {
          return ErrorResult(NotInteger, Ascii("value is not a valid int64"));
        }
        current := parsed.value;
      }
      if delta > 0 {
        if current == I64_MAX {
          return ErrorResult(Overflow, Ascii("int64 overflow"));
        }
        current := current + 1;
      } else {
        if current == I64_MIN {
          return ErrorResult(Overflow, Ascii("int64 underflow"));
        }
        current := current - 1;
      }
      state := state.(kv := state.kv[key := PrintInt(current)]);
      return IntegerResult(current);
    }

    method ApplyCommand(c: Command) returns (r: ApplyResult)
      modifies this`state
      ensures (state, r) == Apply(old(state), c)
    {
      hide ApplyNew, Ascii;
      if !IsWrite(c.kind) {
        return OkResult();
      }
      if c.clientId == 0 {
        r := ApplyNewRequest(c);
        return;
      }
      if c.requestId == 0 {
        return ErrorResult(BadCommand, Ascii("request_id must be non-zero when client_id is set"));
      }
      if c.clientId in state.dedup {
        var found := state.dedup[c.clientId];
        if c.requestId == found.requestId {
          return found.result;
        }
        if c.requestId < found.requestId {
          return ErrorResult(StaleRequest, Ascii("request_id is older than the last applied request"));
        }
      }
      r := ApplyNewRequest(c);
      state := state.(dedup := state.dedup[c.clientId := Record(c.requestId, r)]);
    }

    /** Applies one committed entry, remembers its result under its index and returns it encoded. */
    method Commit(index: nat, data: Bytes) returns (r: ApplyResult)
      modifies this
      ensures (state, r) == CommitData(old(state), index, data, maxField)
      ensures recent == Cache.Step(old(recent), Cache.Committed(index, r))
    {
      hide DecodeCommand, Apply, Put, Ascii;
      var command := DecodeCommandBytes(data, maxField);
      match command {
        case Ok(c) => r := ApplyCommand(c);
        case Err(fault) => r := Rejected(fault);
      }
      state := state.(lastIndex := index);
      recent := Put(recent, index, r);
      ghost var grown := recent;
      while |recent| > Cache.CAPACITY
        invariant Cache.Trim(recent) == Cache.Trim(grown)
        invariant (state, r) == CommitData(old(state), index, data, maxField)
        decreases |recent|
      {
        recent := recent[1..];
      }
    }

    method CommitConfig(index: nat)
      modifies this
      ensures state == ApplyEntry(old(state), index, Config, maxField) && recent == old(recent)
    {
      state := state.(lastIndex := index);
    }

    /** Hands out the result of `index` and forgets it. */
    method TakeResult(index: nat) returns (r: Option<ApplyResult>)
      modifies this`recent
      ensures r == Get(old(recent), index)
      ensures recent == Cache.Step(old(recent), Cache.Taken(index))
    {
      r := Get(recent, index);
      recent := Cache.Remove(recent, index);
    }

    method GetMany(keys: seq<Bytes>) returns (values: seq<Option<Bytes>>)
      ensures |values| == |keys| && forall i :: 0 <= i < |keys| ==> values[i] == Lookup(state.kv, keys[i])
    {
      values := [];
      for i := 0 to |keys|
        invariant |values| == i && forall j :: 0 <= j < i ==> values[j] == Lookup(state.kv, keys[j])
      {
        values := values + [if keys[i] in state.kv then Some(state.kv[keys[i]]) else None];
      }
    }
  }
}
