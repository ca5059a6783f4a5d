/** A condition on the log alone under which no node ever fails to restart. */
module SnapshotLimits {
  import opened Bytes
  import opened KvApply
  import opened KvStateCodec
  import opened KvStateMachine
  import opened StateSize
  import R = Replicas
  import opened Snapshots

  lemma SizeSum(keys: nat, clients: nat, entries: nat, maxField: nat)
    requires keys <= entries && clients <= entries && maxField >= MIN_FIELD
    ensures keys * (8 + 2 * maxField) + clients * (40 + maxField) <= entries * (48 + 3 * maxField)
    ensures 240 * entries <= entries * (48 + 3 * maxField)
  {
    Grows(keys, entries, 8 + 2 * maxField);
    Grows(clients, entries, 40 + maxField);
    Grows(240, 48 + 3 * maxField, entries);
    assert entries * (48 + 3 * maxField) == entries * (8 + 2 * maxField) + entries * (40 + maxField);
  }

  lemma Grows(a: nat, b: nat, factor: nat)
    requires a <= b
    ensures a * factor <= b * factor
  {
  }

  /** Short enough for its field limit that no image of it, with metadata of up to `room` bytes,
      can pass 1 GiB. */
  predicate Short(log: seq<LogEntry>, maxField: nat, room: nat) {
    |log| * (48 + 3 * maxField) + 40 + room <= MAX_STATE_FILE
  }

  /** Every snapshot created or received has metadata of at most `room` bytes, and every one
      received has the payload that the image of its state would be. */
  ghost predicate FitsEvent(e: Event, w: World, room: nat) {
    && (e.CreateSnapshot? ==> |e.metadata| <= room)
    && (e.Receive? ==>
          && |e.metadata| <= room
          && (DeserializeState(e.payload, w.maxField).Ok? ==>
                e.payload == ImageOf(DeserializeState(e.payload, w.maxField).value, w.maxField)))
  }

  ghost predicate Fits(events: seq<Event>, w: World, room: nat) {
    forall i :: 0 <= i < |events| ==> FitsEvent(events[i], w, room)
  }

  lemma ShortImage(s: State, w: World, room: nat)
    requires Setting(w.log, w.maxField) && Short(w.log, w.maxField, room) && R.OnPrefix(s, w.log, w.maxField)
    ensures CountsFit(s) && |ImageOf(s, w.maxField)| + 12 + room <= MAX_STATE_FILE
  {
    hide WellFormed, Replay, Serialize;
    PrefixFacts(s, w.log, w.maxField);
    ReplayCount(w.log[..s.lastIndex], w.maxField);
    ImageSize(s, w.maxField);
    SizeSum(|s.kv|, |s.dedup|, |w.log|, w.maxField);
  }

  /** The files are images, the snapshot with metadata of at most `room` bytes. */
  ghost predicate HoldsImages(n: Node, w: World, room: nat) {
    n.snapshot.Some? ==>
      |n.snapshot.value.metadata| <= room && n.snapshot.value.payload == ImageOf(n.snapshot.value.origin, w.maxField)
  }

  lemma StepHoldsImages(n: Node, e: Event, w: World, room: nat)
    requires HoldsImages(n, w, room) && FitsEvent(e, w, room) && Step(n, e, w).Ok?
    ensures HoldsImages(Step(n, e, w).value, w, room)
  {
    hide ImageOf, DeserializeState, StartState, LoadSnapshotFile, CheckpointFile, SnapshotFile, ApplyEntry;
  }

  lemma AllReadable(n: Node, w: World, room: nat)
    requires Setting(w.log, w.maxField) && Short(w.log, w.maxField, room) && OnPrefixes(n, w) && HoldsImages(n, w, room)
    ensures !HasUnreadable(n)
  {
    hide Setting, Short, R.OnPrefix, ImageOf, CheckpointFile, SnapshotFile, Decodes, CountsFit;
    if n.checkpoint.Some? {
      ShortImage(n.checkpoint.value.origin, w, room);
    }
    if n.snapshot.Some? {
      ShortImage(n.snapshot.value.origin, w, room);
    }
  }

  /** Over every run on a short log, every restart succeeds. */
  lemma {:induction false} ShortLogsNeverFail(events: seq<Event>, w: World, room: nat)
    requires Setting(w.log, w.maxField) && Short(w.log, w.maxField, room) && Honest(events, w) && Fits(events, w, room)
    ensures RunNode(events, w).Ok? && HoldsImages(RunNode(events, w).value, w, room)
  {
    hide Setting, Short, Step, OnPrefixes, HonestEvent, FitsEvent, HoldsImages, HasUnreadable;
    if events == [] {
      NewHoldsImages(w, room);
    } else {
      var before, e := events[..|events| - 1], events[|events| - 1];
      ShortLogsNeverFail(before, w, room);
      RecoveryIsReplay(before, w);
      var n := RunNode(before, w).value;
      StepOnPrefixes(n, e, w);
      if e.Restart? {
        AllReadable(n, w, room);
        RestartExact(n, w);
      }
      StepHoldsImages(n, e, w, room);
    }
  }

  lemma NewHoldsImages(w: World, room: nat)
    ensures HoldsImages(NEW_NODE, w, room)
  {
  }
}
