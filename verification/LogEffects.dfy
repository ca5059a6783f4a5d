/** What each operation of the log does, said by indexes: which entries the log holds afterwards,
    and what a crash after it can leave. */
module LogEffects {
  import opened Bytes
  import opened WalFormat
  import opened Disk
  import opened SortedMap
  import opened LogModel

  /** The log holds `x` at index `i`. */
  ghost predicate Holds(s: Log, i: nat, x: Entry) {
    At(s.start, s.entries, i, x)
  }

  /** Everything in the log survives every crash: whatever a crash leaves, if it can be read at
      all, loads as exactly this log. */
  ghost predicate AllDurable(s: Log) {
    && s.durable == s.Next() - 1
    && forall image :: CrashImage(s.disk, image) && |image| <= MAX_FILE ==>
                         Load(image) == Ok(Loaded(s.start, s.entries, |image|))
  }

  // ---- Holding ----

  /** An append adds its entry at the next slot and nothing else. */
  lemma AppendHolds(s: Log, e: Entry, i: nat, x: Entry)
    requires Inv(s)
    ensures var t := Step(s, AppendEntry(e));
            && t.start == s.start && t.Next() == s.Next() + 1 && t.durable == s.durable
            && (Holds(t, i, x) <==> Holds(s, i, x) || (i == s.Next() && x == e))
  {
  }

  /** An overwrite is accepted for the indexes of the log and the next slot. It puts its entry at
      the index, keeps everything below and nothing above. */
  lemma WriteAtHolds(s: Log, index: nat, e: Entry, i: nat, x: Entry)
    requires Inv(s)
    ensures var t := Step(s, WriteAt(index, e));
            if s.start <= index <= s.Next() then
              && t.start == s.start && t.Next() == index + 1 && t.durable == index - 1
              && (Holds(t, i, x) <==> (i < index && Holds(s, i, x)) || (i == index && x == e))
            else t == s
  {
    hide Image, Frames;
    SyncedEntries(s);
  }

  /** Compaction discards exactly the indexes up to `last`. */
  lemma CompactHolds(s: Log, last: nat, i: nat, x: Entry)
    requires Inv(s)
    ensures var t := Step(s, Compact(last));
            && t.start == (if s.start <= last then last + 1 else s.start)
            && (Holds(t, i, x) <==> last < i && Holds(s, i, x))
  {
    hide Image;
  }

  /** A gap-free pack replaces everything from its index on. */
  lemma PackHolds(s: Log, index: nat, pack: seq<Entry>, i: nat, x: Entry)
    requires Inv(s) && GapFree(s, index, pack)
    ensures var t := Step(s, ApplyPack(index, pack));
            Holds(t, i, x) <==>
              || (i < index && Holds(s, i, x))
              || (index <= i < index + |pack| && pack[i - index] == x)
  {
    hide Image;
  }

  /** Ending a batch and flushing change no entry. */
  lemma SyncHolds(s: Log, op: Op)
    requires Inv(s) && (op.EndBatch? || op.Flush?)
    ensures Step(s, op).start == s.start && Step(s, op).entries == s.entries
  {
    hide Image, Frames;
    SyncedEntries(s);
  }

  // ---- Durability ----

  /** A batch is refused exactly when something staged lies outside it. */
  lemma BatchAccepted(s: Log, first: nat, count: nat)
    requires Inv(s)
    ensures Accepts(s, EndBatch(first, count)) <==>
              count == 0 || forall i: int :: s.durable < i < s.Next() ==> InBatch(i, first, count)
    ensures !Accepts(s, EndBatch(first, count)) ==> Step(s, EndBatch(first, count)) == s
  {
    hide Image;
    if count > 0 && s.Count() < |s.entries| {
      if forall i: int :: s.durable < i < s.Next() ==> InBatch(i, first, count) {
        assert InBatch(s.durable + 1, first, count) && InBatch(s.Next() - 1, first, count);
      }
    }
  }

  predicate InBatch(i: int, first: nat, count: nat) {
    first <= i < first + count
  }

  lemma ImageSurvives(s: Log)
    requires Shape(s) && s.durable == s.Next() - 1 && s.disk == Disk(Image(s.start, s.entries), [])
    ensures AllDurable(s)
  {
    hide Image, Load;
    forall image | CrashImage(s.disk, image) && |image| <= MAX_FILE
      ensures Load(image) == Ok(Loaded(s.start, s.entries, |image|))
    {
      CrashOfSynced(Image(s.start, s.entries), image);
      LoadWholeImage(s.start, s.entries);
    }
  }

  /** A completed batch makes the whole log durable. */
  lemma BatchDurable(s: Log, first: nat, count: nat)
    requires Inv(s) && Accepts(s, EndBatch(first, count)) && count > 0
    ensures AllDurable(Step(s, EndBatch(first, count)))
  {
    hide Image, AllDurable, Frames;
    SyncedDisk(s);
    ShapeOfInv(Synced(s));
    SyncedEntries(s);
    ImageSurvives(Synced(s));
  }

  /** So does a flush, and so do compaction and a gap-free pack. */
  lemma FlushDurable(s: Log)
    requires Inv(s)
    ensures AllDurable(Step(s, Flush))
  {
    hide Image, AllDurable, Frames;
    SyncedDisk(s);
    var t := Step(s, Flush);
    StepInv(s, Flush);
    ShapeOfInv(t);
    SyncedEntries(s);
    assert Contents(Synced(s).disk) == Image(s.start, s.entries);
    ImageSurvives(t);
  }

  lemma RewriteDurable(s: Log, op: Op)
    requires Inv(s) && Legal(s, op) && (op.Compact? || op.ApplyPack?)
    ensures AllDurable(Step(s, op))
  {
    hide Image, AllDurable, Legal;
    StepInv(s, op);
    ShapeOfInv(Step(s, op));
    ImageSurvives(Step(s, op));
  }

  // ---- Runs ----

  /** An operation that does not overwrite or discard an index leaves its entry. */
  lemma StepHolds(s: Log, op: Op, i: nat, x: Entry)
    requires Inv(s) && Legal(s, op) && Holds(s, i, x) && Keeps(op, i)
    ensures Holds(Step(s, op), i, x)
  {
    hide Step, Holds;
    match op {
      case AppendEntry(e) => AppendHolds(s, e, i, x);
      case WriteAt(index, e) => WriteAtHolds(s, index, e, i, x);
      case Compact(last) => CompactHolds(s, last, i, x);
      case ApplyPack(index, pack) => PackHolds(s, index, pack, i, x);
      case _ =>
        SyncHolds(s, op);
        SameHolds(s, Step(s, op), i, x);
    }
  }

  lemma SameHolds(s: Log, t: Log, i: nat, x: Entry)
    requires t.start == s.start && t.entries == s.entries && Holds(s, i, x)
    ensures Holds(t, i, x)
  {
  }

  /** Completed operations, one after the other. */
  ghost predicate Completes(s: Log, ops: seq<Op>, t: Log)
    decreases ops
  {
    if ops == [] then s == t
    else Inv(s) && Legal(s, ops[0]) && Completes(Step(s, ops[0]), ops[1..], t)
  }

  lemma {:induction false} CompletedHolds(s: Log, ops: seq<Op>, t: Log, i: nat, x: Entry)
    requires Inv(s) && Completes(s, ops, t) && Holds(s, i, x)
    requires forall k :: 0 <= k < |ops| ==> Keeps(ops[k], i)
    ensures Inv(t) && Holds(t, i, x)
    decreases ops
  {
    hide Inv, Legal, Holds, Keeps, Step;
    if ops != [] {
      ShapeOfInv(s);
      StepInv(s, ops[0]);
      StepHolds(s, ops[0], i, x);
      CompletedHolds(Step(s, ops[0]), ops[1..], t, i, x);
    }
  }

  /** An appended entry that a completed batch covers is durable from then on: through every
      later run of operations and crashes, until an operation overwrites or discards its index. */
  lemma BatchedForever(
    s: Log, e: Entry, ops: seq<Op>, t: Log, first: nat, count: nat, events: seq<Event>, u: Log)
    requires Inv(s) && Legal(s, AppendEntry(e)) && Completes(Step(s, AppendEntry(e)), ops, t)
    requires Inv(t) && Accepts(t, EndBatch(first, count)) && Legal(t, EndBatch(first, count)) && count > 0
    requires Run(Step(t, EndBatch(first, count)), events, u)
    requires forall k :: 0 <= k < |ops| ==> Keeps(ops[k], s.Next())
    requires forall k :: 0 <= k < |events| ==> Keeps(events[k].op, s.Next())
    ensures Inv(u) && HasDurable(u, s.Next(), e)
  {
    hide Inv, Keeps, Run, Completes, Holds, HasDurable, Step, Accepts, Legal;
    var i := s.Next();
    ShapeOfInv(s);
    ShapeOfInv(t);
    StepInv(s, AppendEntry(e));
    AppendHolds(s, e, i, e);
    CompletedHolds(Step(s, AppendEntry(e)), ops, t, i, e);
    BatchHasDurable(t, first, count, i, e);
    DurableForever(Step(t, EndBatch(first, count)), events, u, i, e);
  }

  lemma BatchHasDurable(t: Log, first: nat, count: nat, i: nat, e: Entry)
    requires Inv(t) && Accepts(t, EndBatch(first, count)) && Legal(t, EndBatch(first, count)) && count > 0
    requires Holds(t, i, e)
    ensures var v := Step(t, EndBatch(first, count)); Inv(v) && HasDurable(v, i, e)
  {
    hide Inv, AllDurable, Holds, HasDurable, Step, Accepts, Legal;
    ShapeOfInv(t);
    StepInv(t, EndBatch(first, count));
    SyncHolds(t, EndBatch(first, count));
    BatchDurable(t, first, count);
    DurableMeans(t, Step(t, EndBatch(first, count)), i, e);
  }

  lemma DurableMeans(t: Log, v: Log, i: nat, e: Entry)
    requires Holds(t, i, e) && v.start == t.start && v.entries == t.entries && AllDurable(v)
    ensures HasDurable(v, i, e)
  {
  }
}
