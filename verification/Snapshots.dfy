/** Checkpoints, snapshots and restarts: whatever image a node starts from, committing the
    rest of the log brings it to the state of replaying the whole log. */
module Snapshots {
  import opened Bytes
  import opened BinaryCodec
  import opened CheckedRecord
  import opened Commands
  import opened KvApply
  import opened KvStateCodec
  import opened KvStateMachine
  import opened StateSize
  import R = Replicas

  const STATE_MAGIC: Magic := [83, 75, 86, 83]  // "SKVS"
  const SNAPSHOT_MAGIC: Magic := [83, 75, 83, 78]  // "SKSN"
  const MAX_STATE_FILE := 1024 * 1024 * 1024

  // ---- Files ----

  /** `serialize_snapshot_record`: NuRaft's serialized snapshot and the state payload. */
  function SnapshotBytes(metadata: Bytes, payload: Bytes): Bytes {
    BigEndian(1, 2) + BigEndian(0, 2) + StringBytes(metadata) + StringBytes(payload)
  }

  /** `deserialize_snapshot_record`: the metadata and the state payload. `indexOf` is the last log
      index that NuRaft reads in its own serialized snapshot. */
  function ReadSnapshot(record: Bytes, maxField: nat, indexOf: Bytes -> nat): Result<(Bytes, Bytes)> {
    var (version, s1) :- TakeUnsigned(record, 2);
    var (reserved, s2) :- TakeUnsigned(s1, 2);
    if version != 1 || reserved != 0 then Err(SnapshotVersion) else
    var (metadata, s3) :- TakeString(s2, U32);
    var (payload, s4) :- TakeString(s3, U32);
    if s4 != [] then Err(TrailingBytes) else
    var state :- DeserializeState(payload, maxField);
    if state.lastIndex != indexOf(metadata) then Err(SnapshotIndex) else Ok((metadata, payload))
  }

  function LoadSnapshotFile(file: Bytes, maxField: nat, indexOf: Bytes -> nat): Result<(Bytes, Bytes)> {
    var record :- ReadRecord(file, SNAPSHOT_MAGIC, MAX_STATE_FILE);
    ReadSnapshot(record, maxField, indexOf)
  }

  function LoadCheckpoint(file: Bytes, maxField: nat): Result<State> {
    var payload :- ReadRecord(file, STATE_MAGIC, MAX_STATE_FILE);
    DeserializeState(payload, maxField)
  }

  /** The constructor: the checkpoint, then the snapshot if its index is higher. */
  function StartState(checkpoint: Option<Bytes>, snapshot: Option<Bytes>, maxField: nat, indexOf: Bytes -> nat)
    : Result<State>
  {
    var base :- if checkpoint.Some? then LoadCheckpoint(checkpoint.value, maxField) else Ok(EMPTY);
    if snapshot.None? then Ok(base) else
    var (metadata, payload) :- LoadSnapshotFile(snapshot.value, maxField, indexOf);
    if indexOf(metadata) > base.lastIndex then DeserializeState(payload, maxField) else Ok(base)
  }

  // ---- Images ----

  /** The logs and field limits a node can have: the configuration bounds the field limit between
      64 bytes and 1 GiB, and indexes are 64-bit. */
  predicate Setting(log: seq<LogEntry>, maxField: nat) {
    MIN_FIELD <= maxField < U32 - 20 && |log| < U64
  }

  /** The image of a state; every state a node reaches is well-formed. */
  ghost function ImageOf(s: State, maxField: nat): Bytes {
    if WellFormed(s, maxField) then Serialize(s, maxField) else []
  }

  /** `persist_state_locked`: the writer refuses payloads of 2^32 bytes and more. */
  function CheckpointFile(image: Bytes): Result<Bytes> {
    if |image| < U32 then Ok(RecordBytes(STATE_MAGIC, image)) else Err(RecordTooLarge)
  }

  /** `store_snapshot_file`. */
  function SnapshotFile(metadata: Bytes, payload: Bytes): Result<Bytes> {
    if |metadata| < U32 && |payload| < U32 && |SnapshotBytes(metadata, payload)| < U32
    then Ok(RecordBytes(SNAPSHOT_MAGIC, SnapshotBytes(metadata, payload)))
    else Err(RecordTooLarge)
  }

  lemma PrefixFacts(s: State, log: seq<LogEntry>, maxField: nat)
    requires Setting(log, maxField) && R.OnPrefix(s, log, maxField)
    ensures WellFormed(s, maxField) && s.lastIndex < U64 && |s.kv| < U64 && |s.dedup| < U64
  {
    hide Replay, WellFormed;
    ReplayWellFormed(log[..s.lastIndex], maxField);
    ReplayCount(log[..s.lastIndex], maxField);
  }

  /** The payload is decoded as the state if its counts fit, and refused if they do not. */
  predicate Decodes(payload: Bytes, s: State, maxField: nat) {
    var r := DeserializeState(payload, maxField);
    if CountsFit(s) then r == Ok(s) else r.Err?
  }

  /** So is the image of every state on a prefix. */
  lemma ImageDecodes(s: State, log: seq<LogEntry>, maxField: nat)
    requires Setting(log, maxField) && R.OnPrefix(s, log, maxField)
    ensures Decodes(ImageOf(s, maxField), s, maxField)
  {
    hide Replay, DeserializeState, Serialize, WellFormed, Serializes, R.OnPrefix;
    PrefixFacts(s, log, maxField);
    StateRoundTrip(s, maxField, ImageOf(s, maxField));
  }

  /** And every payload that is decoded at all. */
  lemma DecodedDecodes(payload: Bytes, maxField: nat)
    requires DeserializeState(payload, maxField).Ok?
    ensures Decodes(payload, DeserializeState(payload, maxField).value, maxField)
  {
    DecodedCountsFit(payload, maxField);
  }

  /** A stored checkpoint loads as its state if and only if the state's counts are within the
      decoder's limits and its image is at most 1 GiB. */
  lemma CheckpointReadsBack(s: State, log: seq<LogEntry>, maxField: nat)
    requires Setting(log, maxField) && R.OnPrefix(s, log, maxField) && CheckpointFile(ImageOf(s, maxField)).Ok?
    ensures var r := LoadCheckpoint(CheckpointFile(ImageOf(s, maxField)).value, maxField);
            if CountsFit(s) && |ImageOf(s, maxField)| <= MAX_STATE_FILE then r == Ok(s) else r.Err?
  {
    hide ReadRecord, RecordBytes, ImageOf, DeserializeState, R.OnPrefix, CountsFit;
    RoundTrip(STATE_MAGIC, ImageOf(s, maxField), MAX_STATE_FILE);
    ImageDecodes(s, log, maxField);
  }

  lemma SnapshotSize(metadata: Bytes, payload: Bytes)
    ensures |SnapshotBytes(metadata, payload)| == 12 + |metadata| + |payload|
  {
  }

  /** A stored snapshot loads if and only if the counts of its state are within the decoder's
      limits and metadata and payload leave 12 bytes of 1 GiB. */
  lemma SnapshotReadsBack(metadata: Bytes, payload: Bytes, s: State, maxField: nat, indexOf: Bytes -> nat)
    requires Decodes(payload, s, maxField) && indexOf(metadata) == s.lastIndex
    requires SnapshotFile(metadata, payload).Ok?
    ensures var r := LoadSnapshotFile(SnapshotFile(metadata, payload).value, maxField, indexOf);
            if CountsFit(s) && 12 + |metadata| + |payload| <= MAX_STATE_FILE then r == Ok((metadata, payload))
            else r.Err?
  {
    hide ReadRecord, RecordBytes, DeserializeState, ReadSnapshot, CountsFit, SnapshotBytes;
    SnapshotSize(metadata, payload);
    RoundTrip(SNAPSHOT_MAGIC, SnapshotBytes(metadata, payload), MAX_STATE_FILE);
    ReadSnapshotOfBytes(metadata, payload, maxField, indexOf);
  }

  lemma ReadSnapshotOfBytes(metadata: Bytes, payload: Bytes, maxField: nat, indexOf: Bytes -> nat)
    requires |metadata| < U32 && |payload| < U32
    ensures var state := DeserializeState(payload, maxField);
            ReadSnapshot(SnapshotBytes(metadata, payload), maxField, indexOf)
            == if state.Err? then Err(state.error)
               else if state.value.lastIndex != indexOf(metadata) then Err(SnapshotIndex)
               else Ok((metadata, payload))
  {
    hide TakeUnsigned, TakeString, BigEndian, Unsigned, StringBytes, DeserializeState;
    Widths();
    var s2 := StringBytes(metadata) + StringBytes(payload);
    var s1 := BigEndian(0, 2) + s2;
    assert SnapshotBytes(metadata, payload) == BigEndian(1, 2) + s1;
    TakeUnsignedOfBigEndian(1, 2, s1);
    TakeUnsignedOfBigEndian(0, 2, s2);
    TakeStringOfStringBytes(metadata, U32, StringBytes(payload));
    assert StringBytes(payload) + [] == StringBytes(payload);
    TakeStringOfStringBytes(payload, U32, []);
  }

  // ---- Runs of one node over the committed log ----

  /** What a node runs with: the committed log, the field limit and NuRaft's reading of its own
      snapshot metadata. */
  datatype World = World(log: seq<LogEntry>, maxField: nat, indexOf: Bytes -> nat)

  /** A stored image: the file, what it holds and the state it was written from. */
  datatype Stored = Stored(file: Bytes, metadata: Bytes, payload: Bytes, origin: State)

  datatype Node = Node(memory: State, checkpoint: Option<Stored>, snapshot: Option<Stored>)

  const NEW_NODE := Node(EMPTY, None, None)

  /** A snapshot is named by its serialized metadata. `Receive` saves a payload sent by another
      node, whatever it is; `ApplySnapshot` installs the stored snapshot of an index. */
  datatype Event =
    | CommitNext
    | TakeCheckpoint
    | CreateSnapshot(metadata: Bytes)
    | Receive(metadata: Bytes, payload: Bytes)
    | ApplySnapshot(index: nat)
    | Restart

  function FileOf(stored: Option<Stored>): Option<Bytes> {
    if stored.None? then None else Some(stored.value.file)
  }

  /** The snapshot file replaced, or the node as it was if the writer throws. */
  function WithSnapshot(n: Node, metadata: Bytes, payload: Bytes, origin: State): Node {
    var file := SnapshotFile(metadata, payload);
    if file.Err? then n else n.(snapshot := Some(Stored(file.value, metadata, payload, origin)))
  }

  /** One event on a node. A writer or reader that throws while the node runs leaves it as it was;
      a restart that throws leaves no node. */
  ghost function Step(n: Node, e: Event, w: World): Result<Node> {
    match e
    case CommitNext =>
      if n.memory.lastIndex >= |w.log| then Ok(n)
      else Ok(n.(memory := ApplyEntry(n.memory, n.memory.lastIndex + 1, w.log[n.memory.lastIndex], w.maxField)))
    case TakeCheckpoint =>
      var image := ImageOf(n.memory, w.maxField);
      var file := CheckpointFile(image);
      Ok(if file.Err? then n else n.(checkpoint := Some(Stored(file.value, [], image, n.memory))))
    case CreateSnapshot(metadata) =>
      Ok(if n.memory.lastIndex != w.indexOf(metadata) then n
         else WithSnapshot(n, metadata, ImageOf(n.memory, w.maxField), n.memory))
    case Receive(metadata, payload) =>
      var decoded := DeserializeState(payload, w.maxField);
      Ok(if decoded.Err? || decoded.value.lastIndex != w.indexOf(metadata) then n
         else WithSnapshot(n, metadata, payload, decoded.value))
    case ApplySnapshot(index) =>
      if n.snapshot.None? then Ok(n) else
      var loaded := LoadSnapshotFile(n.snapshot.value.file, w.maxField, w.indexOf);
      if loaded.Err? || w.indexOf(loaded.value.0) != index then Ok(n) else
      var replacement := DeserializeState(loaded.value.1, w.maxField);
      Ok(if replacement.Err? then n else n.(memory := replacement.value))
    case Restart =>
      var memory :- StartState(FileOf(n.checkpoint), FileOf(n.snapshot), w.maxField, w.indexOf);
      Ok(n.(memory := memory))
  }

  ghost function RunNode(events: seq<Event>, w: World): Result<Node> {
    if events == [] then Ok(NEW_NODE) else
    var before := RunNode(events[..|events| - 1], w);
    if before.Err? then before else Step(before.value, events[|events| - 1], w)
  }

  /** What the senders of snapshots promise: a payload that is accepted is the state of a
      committed prefix. */
  predicate HonestEvent(e: Event, w: World) {
    e.Receive? && DeserializeState(e.payload, w.maxField).Ok? ==>
      R.OnPrefix(DeserializeState(e.payload, w.maxField).value, w.log, w.maxField)
  }

  predicate Honest(events: seq<Event>, w: World) {
    forall i :: 0 <= i < |events| ==> HonestEvent(events[i], w)
  }

  ghost predicate CheckpointOk(c: Stored, w: World) {
    && R.OnPrefix(c.origin, w.log, w.maxField)
    && c.payload == ImageOf(c.origin, w.maxField) && CheckpointFile(c.payload) == Ok(c.file)
  }

  predicate SnapshotOk(c: Stored, w: World) {
    && R.OnPrefix(c.origin, w.log, w.maxField) && w.indexOf(c.metadata) == c.origin.lastIndex
    && Decodes(c.payload, c.origin, w.maxField) && SnapshotFile(c.metadata, c.payload) == Ok(c.file)
  }

  /** Memory is the replay of a prefix, and each file holds the state of one. */
  ghost predicate OnPrefixes(n: Node, w: World) {
    && R.OnPrefix(n.memory, w.log, w.maxField)
    && (n.checkpoint.Some? ==> CheckpointOk(n.checkpoint.value, w))
    && (n.snapshot.Some? ==> SnapshotOk(n.snapshot.value, w))
  }

  /** A stored image that the readers refuse. */
  predicate HasUnreadable(n: Node) {
    || (n.checkpoint.Some?
        && (!CountsFit(n.checkpoint.value.origin) || |n.checkpoint.value.payload| > MAX_STATE_FILE))
    || (n.snapshot.Some?
        && (!CountsFit(n.snapshot.value.origin)
            || 12 + |n.snapshot.value.metadata| + |n.snapshot.value.payload| > MAX_STATE_FILE))
  }

  /** The newer of the two images, or the empty state. */
  function Newest(n: Node): State {
    var base := if n.checkpoint.Some? then n.checkpoint.value.origin else EMPTY;
    if n.snapshot.Some? && n.snapshot.value.origin.lastIndex > base.lastIndex then n.snapshot.value.origin else base
  }

  lemma StoredCheckpoint(c: Stored, w: World)
    requires Setting(w.log, w.maxField) && CheckpointOk(c, w)
    ensures var r := LoadCheckpoint(c.file, w.maxField);
            if CountsFit(c.origin) && |c.payload| <= MAX_STATE_FILE then r == Ok(c.origin) else r.Err?
  {
    hide R.OnPrefix, ImageOf, LoadCheckpoint, CheckpointFile, Setting;
    CheckpointReadsBack(c.origin, w.log, w.maxField);
  }

  lemma StoredSnapshot(c: Stored, w: World)
    requires SnapshotOk(c, w)
    ensures var r := LoadSnapshotFile(c.file, w.maxField, w.indexOf);
            if CountsFit(c.origin) && 12 + |c.metadata| + |c.payload| <= MAX_STATE_FILE
            then r == Ok((c.metadata, c.payload)) && DeserializeState(c.payload, w.maxField) == Ok(c.origin)
            else r.Err?
  {
    hide R.OnPrefix, LoadSnapshotFile, SnapshotFile, DeserializeState, CountsFit;
    SnapshotReadsBack(c.metadata, c.payload, c.origin, w.maxField, w.indexOf);
  }

  /** A restart fails if and only if a stored image is unreadable, and otherwise starts from the
      newer one. */
  lemma RestartExact(n: Node, w: World)
    requires Setting(w.log, w.maxField) && OnPrefixes(n, w)
    ensures var r := Step(n, Restart, w);
            if HasUnreadable(n) then r.Err? else r == Ok(n.(memory := Newest(n)))
  {
    hide R.OnPrefix, LoadCheckpoint, LoadSnapshotFile, DeserializeState, CheckpointOk, CountsFit, Setting, Decodes;
    if n.checkpoint.Some? {
      StoredCheckpoint(n.checkpoint.value, w);
    }
    if n.snapshot.Some? {
      StoredSnapshot(n.snapshot.value, w);
    }
  }

  lemma CreateOnPrefix(n: Node, metadata: Bytes, w: World)
    requires Setting(w.log, w.maxField) && OnPrefixes(n, w) && n.memory.lastIndex == w.indexOf(metadata)
    ensures OnPrefixes(WithSnapshot(n, metadata, ImageOf(n.memory, w.maxField), n.memory), w)
  {
    hide R.OnPrefix, ImageOf, SnapshotFile, CheckpointOk, Setting, Decodes;
    ImageDecodes(n.memory, w.log, w.maxField);
  }

  lemma ReceiveOnPrefix(n: Node, metadata: Bytes, payload: Bytes, w: World)
    requires OnPrefixes(n, w) && HonestEvent(Receive(metadata, payload), w)
    requires DeserializeState(payload, w.maxField).Ok?
    requires DeserializeState(payload, w.maxField).value.lastIndex == w.indexOf(metadata)
    ensures OnPrefixes(WithSnapshot(n, metadata, payload, DeserializeState(payload, w.maxField).value), w)
  {
    hide R.OnPrefix, SnapshotFile, CheckpointOk, Decodes, DeserializeState;
    DecodedDecodes(payload, w.maxField);
  }

  lemma ApplyOnPrefix(n: Node, index: nat, w: World)
    requires OnPrefixes(n, w)
    ensures var r := Step(n, ApplySnapshot(index), w); r.Ok? && OnPrefixes(r.value, w)
  {
    hide R.OnPrefix, LoadSnapshotFile, DeserializeState, CheckpointOk, Decodes, CountsFit;
    if n.snapshot.Some? {
      StoredSnapshot(n.snapshot.value, w);
    }
  }

  /** No event ever takes memory or a file off the committed prefixes; only a restart can fail. */
  lemma StepOnPrefixes(n: Node, e: Event, w: World)
    requires Setting(w.log, w.maxField) && OnPrefixes(n, w) && HonestEvent(e, w)
    ensures var r := Step(n, e, w); (r.Err? ==> e.Restart?) && (r.Ok? ==> OnPrefixes(r.value, w))
  {
    hide R.OnPrefix, ImageOf, LoadSnapshotFile, DeserializeState, StartState, CheckpointFile, SnapshotOk;
    hide ApplyEntry, Setting, HasUnreadable, WithSnapshot, HonestEvent;
    match e {
      case CommitNext =>
        if n.memory.lastIndex < |w.log| {
          R.NextOnPrefix(n.memory, w.log, w.maxField);
        }
      case TakeCheckpoint =>
      case CreateSnapshot(metadata) =>
        if n.memory.lastIndex == w.indexOf(metadata) {
          CreateOnPrefix(n, metadata, w);
        }
      case Receive(metadata, payload) =>
        var decoded := DeserializeState(payload, w.maxField);
        if decoded.Ok? && decoded.value.lastIndex == w.indexOf(metadata) {
          ReceiveOnPrefix(n, metadata, payload, w);
        }
      case ApplySnapshot(index) => ApplyOnPrefix(n, index, w);
      case Restart =>
        RestartExact(n, w);
        R.EmptyOnPrefix(w.log, w.maxField);
        assert OnPrefixes(n.(memory := Newest(n)), w) by { NewestOnPrefix(n, w); }
    }
  }

  lemma NewestOnPrefix(n: Node, w: World)
    requires OnPrefixes(n, w) && R.OnPrefix(EMPTY, w.log, w.maxField)
    ensures OnPrefixes(n.(memory := Newest(n)), w)
  {
    hide R.OnPrefix, ImageOf, CheckpointFile, SnapshotFile, Decodes;
  }

  lemma NewOnPrefixes(w: World)
    ensures OnPrefixes(NEW_NODE, w)
  {
    R.EmptyOnPrefix(w.log, w.maxField);
  }

  /** Snapshot plus replay is full replay: through any run of commits, checkpoints, snapshots
      created, received and applied, and restarts, as long as the node runs its memory is exactly
      the replay of the committed prefix its index names. */
  lemma {:induction false} RecoveryIsReplay(events: seq<Event>, w: World)
    requires Setting(w.log, w.maxField) && Honest(events, w)
    ensures var r := RunNode(events, w); r.Ok? ==> OnPrefixes(r.value, w)
  {
    hide Setting, OnPrefixes, Step, HonestEvent;
    if events == [] {
      NewOnPrefixes(w);
    } else {
      var before := events[..|events| - 1];
      RecoveryIsReplay(before, w);
      var r := RunNode(before, w);
      if r.Ok? {
        StepOnPrefixes(r.value, events[|events| - 1], w);
      }
    }
  }

  /** `read_logical_snp_obj`: what a node sends when asked for its snapshot of an index. */
  function Sent(n: Node, index: nat, w: World): Option<Bytes> {
    if n.snapshot.None? then None else
    var loaded := LoadSnapshotFile(n.snapshot.value.file, w.maxField, w.indexOf);
    if loaded.Err? || w.indexOf(loaded.value.0) != index then None else Some(loaded.value.1)
  }

  /** A node keeps the promise the next one relies on: after any run, what it sends is the state
      of the committed prefix of that index. */
  lemma SendersAreHonest(events: seq<Event>, w: World, index: nat, metadata: Bytes)
    requires Setting(w.log, w.maxField) && Honest(events, w)
    requires RunNode(events, w).Ok? && Sent(RunNode(events, w).value, index, w).Some?
    ensures var payload := Sent(RunNode(events, w).value, index, w).value;
            && HonestEvent(Receive(metadata, payload), w)
            && DeserializeState(payload, w.maxField).Ok?
            && DeserializeState(payload, w.maxField).value.lastIndex == index
  {
    hide R.OnPrefix, LoadSnapshotFile, DeserializeState, CheckpointOk, Decodes, CountsFit, RunNode, Setting, Honest;
    RecoveryIsReplay(events, w);
    StoredSnapshot(RunNode(events, w).value.snapshot.value, w);
  }

  // ---- What each event does ----

  /** The readers accept the stored snapshot. */
  predicate Readable(c: Stored) {
    CountsFit(c.origin) && 12 + |c.metadata| + |c.payload| <= MAX_STATE_FILE
  }

  /** Committing moves memory to the replay of one more entry and touches no file. */
  lemma CommitMoves(n: Node, w: World)
    requires OnPrefixes(n, w)
    ensures var k := n.memory.lastIndex;
            Step(n, CommitNext, w)
            == Ok(if k < |w.log| then n.(memory := Replay(w.log[..k + 1], w.maxField)) else n)
  {
    hide ApplyEntry, CheckpointOk, SnapshotOk;
    var k := n.memory.lastIndex;
    if k < |w.log| {
      R.NextOnPrefix(n.memory, w.log, w.maxField);
    }
  }

  /** Applying the snapshot of an index installs the state of that prefix exactly when the stored
      snapshot is readable and has that index, and otherwise leaves the node as it was. */
  lemma ApplyInstalls(n: Node, index: nat, w: World)
    requires OnPrefixes(n, w)
    ensures var r := Step(n, ApplySnapshot(index), w);
            if n.snapshot.Some? && Readable(n.snapshot.value) && n.snapshot.value.origin.lastIndex == index
            then index <= |w.log| && r == Ok(n.(memory := Replay(w.log[..index], w.maxField)))
            else r == Ok(n)
  {
    hide LoadSnapshotFile, DeserializeState, CheckpointOk, Decodes, CountsFit, Replay, SnapshotFile;
    if n.snapshot.Some? {
      StoredSnapshot(n.snapshot.value, w);
    }
  }

  /** The newer image is one of the two, and not older than either. */
  lemma NewestIsNewer(n: Node)
    ensures n.checkpoint.Some? ==> Newest(n).lastIndex >= n.checkpoint.value.origin.lastIndex
    ensures n.snapshot.Some? ==> Newest(n).lastIndex >= n.snapshot.value.origin.lastIndex
    ensures || Newest(n) == EMPTY
            || (n.checkpoint.Some? && Newest(n) == n.checkpoint.value.origin)
            || (n.snapshot.Some? && Newest(n) == n.snapshot.value.origin)
  {
  }

  /** A checkpoint the writer accepts loses nothing: a restart that succeeds after it starts no
      earlier than the node was. One it refuses leaves the node as it was. */
  lemma CheckpointKeepsIndex(n: Node, w: World)
    requires Setting(w.log, w.maxField) && OnPrefixes(n, w)
    ensures var m := Step(n, TakeCheckpoint, w).value;
            && m.memory == n.memory && m.snapshot == n.snapshot
            && (|ImageOf(n.memory, w.maxField)| >= U32 ==> m == n)
            && (|ImageOf(n.memory, w.maxField)| < U32 && Step(m, Restart, w).Ok? ==>
                  Step(m, Restart, w).value.memory.lastIndex >= n.memory.lastIndex)
  {
    hide Setting, HasUnreadable, ImageOf, StartState, Newest, R.OnPrefix, SnapshotOk, RecordBytes;
    var m := Step(n, TakeCheckpoint, w).value;
    StepOnPrefixes(n, TakeCheckpoint, w);
    RestartExact(m, w);
    NewestIsNewer(m);
  }

  /** A snapshot created at the applied index is what the node then sends and, on restart, starts
      from or passes; a request for another index, or a writer that refuses, changes nothing. */
  lemma CreatedIsSent(n: Node, metadata: Bytes, w: World)
    requires Setting(w.log, w.maxField) && OnPrefixes(n, w)
    ensures var image := ImageOf(n.memory, w.maxField);
            var m := Step(n, CreateSnapshot(metadata), w).value;
            if n.memory.lastIndex == w.indexOf(metadata) && SnapshotFile(metadata, image).Ok? then
              && m.memory == n.memory && m.checkpoint == n.checkpoint
              && (CountsFit(n.memory) && 12 + |metadata| + |image| <= MAX_STATE_FILE ==>
                    Sent(m, n.memory.lastIndex, w) == Some(image))
            else m == n
  {
    hide Setting, ImageOf, LoadSnapshotFile, DeserializeState, CheckpointOk, Decodes, CountsFit, SnapshotFile;
    hide R.OnPrefix;
    if n.memory.lastIndex == w.indexOf(metadata) {
      CreateOnPrefix(n, metadata, w);
      var m := Step(n, CreateSnapshot(metadata), w).value;
      if m.snapshot.Some? {
        StoredSnapshot(m.snapshot.value, w);
      }
    }
  }

  /** A received payload is saved exactly when it decodes to a state of the snapshot's index and the
      writer accepts it; saved, it is what the node sends and, applied, what it becomes. */
  lemma ReceivedIsInstalled(n: Node, metadata: Bytes, payload: Bytes, w: World)
    requires OnPrefixes(n, w) && HonestEvent(Receive(metadata, payload), w)
    ensures var m := Step(n, Receive(metadata, payload), w).value;
            var decoded := DeserializeState(payload, w.maxField);
            if decoded.Ok? && decoded.value.lastIndex == w.indexOf(metadata) && SnapshotFile(metadata, payload).Ok?
            then
              && m.memory == n.memory && m.checkpoint == n.checkpoint
              && (12 + |metadata| + |payload| <= MAX_STATE_FILE ==>
                    && Sent(m, w.indexOf(metadata), w) == Some(payload)
                    && Step(m, ApplySnapshot(w.indexOf(metadata)), w) == Ok(m.(memory := decoded.value)))
            else m == n
  {
    hide LoadSnapshotFile, DeserializeState, CheckpointOk, Decodes, CountsFit, SnapshotFile, R.OnPrefix;
    var decoded := DeserializeState(payload, w.maxField);
    if decoded.Ok? && decoded.value.lastIndex == w.indexOf(metadata) {
      ReceiveOnPrefix(n, metadata, payload, w);
      DecodedCountsFit(payload, w.maxField);
      var m := Step(n, Receive(metadata, payload), w).value;
      if m.snapshot.Some? {
        StoredSnapshot(m.snapshot.value, w);
      }
    }
  }

  lemma HonestParts(a: seq<Event>, b: seq<Event>, w: World)
    requires Honest(a, w) && Honest(b, w)
    ensures Honest(a + b, w)
  {
    hide HonestEvent;
  }

  /** When a restart after any history fails, and what it starts from when it does not. */
  lemma RestartAfterAnyRun(events: seq<Event>, w: World)
    requires Setting(w.log, w.maxField) && Honest(events, w) && RunNode(events, w).Ok?
    ensures var n := RunNode(events, w).value;
            var r := RunNode(events + [Restart], w);
            if HasUnreadable(n) then r.Err? else r == Ok(n.(memory := Newest(n)))
  {
    hide Setting, OnPrefixes, Step, HasUnreadable, Newest, Honest;
    RecoveryIsReplay(events, w);
    RunSnoc(events, Restart, w);
    RestartExact(RunNode(events, w).value, w);
  }

  lemma RunSnoc(events: seq<Event>, e: Event, w: World)
    requires RunNode(events, w).Ok?
    ensures RunNode(events + [e], w) == Step(RunNode(events, w).value, e, w)
  {
    hide Step;
    assert (events + [e])[..|events|] == events;
  }

  function Commits(count: nat): seq<Event> {
    seq(count, _ => CommitNext)
  }

  lemma CommitsSnoc(events: seq<Event>, count: nat)
    ensures events + Commits(0) == events
    ensures events + Commits(count + 1) == events + Commits(count) + [CommitNext]
  {
  }

  lemma CommitsHonest(events: seq<Event>, count: nat, w: World)
    requires Honest(events, w)
    ensures Honest(events + Commits(count), w)
  {
    hide DeserializeState, R.OnPrefix;
    assert Honest(Commits(count), w);
    HonestParts(events, Commits(count), w);
  }

  lemma {:induction false} CommitsProgress(events: seq<Event>, count: nat, w: World)
    requires Setting(w.log, w.maxField) && Honest(events, w) && RunNode(events, w).Ok?
    ensures var r := RunNode(events + Commits(count), w);
            && r.Ok? && r.value.memory.lastIndex <= |w.log|
            && (r.value.memory.lastIndex >= count || r.value.memory.lastIndex == |w.log|)
    decreases count
  {
    hide Setting, OnPrefixes, Step, RunNode, Commits, Honest;
    CommitsHonest(events, count, w);
    RecoveryIsReplay(events + Commits(count), w);
    if count == 0 {
      CommitsSnoc(events, 0);
    } else {
      CommitsProgress(events, count - 1, w);
      CommitsSnoc(events, count - 1);
      RunSnoc(events + Commits(count - 1), CommitNext, w);
      NextIndex(RunNode(events + Commits(count - 1), w).value, w);
    }
    PrefixBound(RunNode(events + Commits(count), w).value, w);
  }

  lemma PrefixBound(n: Node, w: World)
    requires OnPrefixes(n, w)
    ensures n.memory.lastIndex <= |w.log| && n.memory == Replay(w.log[..n.memory.lastIndex], w.maxField)
  {
  }

  lemma NextIndex(n: Node, w: World)
    ensures var r := Step(n, CommitNext, w);
            && r.Ok?
            && r.value.memory.lastIndex ==
               if n.memory.lastIndex < |w.log| then n.memory.lastIndex + 1 else n.memory.lastIndex
  {
    hide CommitData;
    if n.memory.lastIndex < |w.log| {
      NextEntry(n.memory, w.log[n.memory.lastIndex], w.maxField);
    }
  }

  lemma NextEntry(s: State, entry: LogEntry, maxField: nat)
    ensures ApplyEntry(s, s.lastIndex + 1, entry, maxField).lastIndex == s.lastIndex + 1
  {
    hide DecodeCommand, Apply, What;
  }

  /** After any history that the node survives, committing whatever the log still holds ends with
      the same map, dedup table and index as replaying the whole log from empty. */
  lemma CatchUp(events: seq<Event>, count: nat, w: World)
    requires Setting(w.log, w.maxField) && Honest(events, w) && RunNode(events, w).Ok? && count >= |w.log|
    ensures var r := RunNode(events + Commits(count), w); r.Ok? && r.value.memory == Replay(w.log, w.maxField)
  {
    hide Setting, Replay, RunNode, OnPrefixes, Honest, Commits;
    CommitsProgress(events, count, w);
    CommitsHonest(events, count, w);
    RecoveryIsReplay(events + Commits(count), w);
    PrefixBound(RunNode(events + Commits(count), w).value, w);
    assert w.log[..|w.log|] == w.log;
  }

  /** In particular after a restart, which fails exactly when a stored image is unreadable. */
  lemma RestartThenCatchUp(events: seq<Event>, count: nat, w: World)
    requires Setting(w.log, w.maxField) && Honest(events, w) && RunNode(events, w).Ok? && count >= |w.log|
    requires !HasUnreadable(RunNode(events, w).value)
    ensures var r := RunNode(events + [Restart] + Commits(count), w);
            r.Ok? && r.value.memory == Replay(w.log, w.maxField)
  {
    hide Setting, Replay, RunNode, HasUnreadable, Commits;
    RestartAfterAnyRun(events, w);
    assert Honest([Restart], w) by { hide DeserializeState, R.OnPrefix; }
    HonestParts(events, [Restart], w);
    CatchUp(events + [Restart], count, w);
  }
}
