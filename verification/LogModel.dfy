/** The log store as a start index, a plain sequence of entries, a durable index and a disk,
    with every public operation as a step on it, and the proof that no run of operations,
    crashes and restarts loses a durable entry. */
module LogModel {
  import opened Bytes
  import opened WalFormat
  import opened Disk
  import opened SortedMap

  datatype Log = Log(start: nat, entries: seq<Entry>, durable: int, disk: Disk) {
    function Next(): nat { start + |entries| }

    /** How many entries are durable. */
    function Count(): int { durable + 1 - start }
  }

  datatype Op =
    | AppendEntry(entry: Entry)
    | WriteAt(index: nat, entry: Entry)
    | EndBatch(first: nat, count: nat)
    | Flush
    | Compact(last: nat)
    | ApplyPack(index: nat, pack: seq<Entry>)

  /** Index `i` of the log that starts at `start` holds `e`. */
  ghost predicate At(start: nat, entries: seq<Entry>, i: nat, e: Entry) {
    start <= i < start + |entries| && entries[i - start] == e
  }

  // ---- The invariant ----

  ghost predicate Shape(s: Log) {
    && 1 <= s.start && s.Next() < U64 && AllEncodable(s.entries)
    && 0 <= s.Count() <= |s.entries|
  }

  /** `synced` holds the log `older`, which agrees with the store on all durable entries and
      which the un-synced truncation, if any, cuts down to exactly those. */
  ghost predicate DiskHolds(s: Log, older: seq<Entry>)
    requires Shape(s)
  {
    var n := s.Count();
    && AllEncodable(older) && s.start + |older| < U64
    && n <= |older| && older[..n] == s.entries[..n]
    && s.disk.synced == Image(s.start, older)
    && (|| (s.disk.ops == [] && |older| == n)
        || (s.disk.ops == [Truncate(|Image(s.start, s.entries[..n])|)] && n < |s.entries|))
  }

  ghost predicate Inv(s: Log) {
    Shape(s) && exists older :: DiskHolds(s, older)
  }

  // ---- Steps ----

  function Fresh(): Log {
    Log(1, [], 0, Replace(Image(1, [])))
  }

  /** The staged frames. */
  function Staged(s: Log): Bytes
    requires 0 <= s.Count() <= |s.entries|
  {
    Frames(s.start + s.Count(), s.entries[s.Count()..])
  }

  /** `sync_pending_locked`. */
  function Synced(s: Log): Log
    requires 0 <= s.Count() <= |s.entries|
  {
    if s.Count() == |s.entries| then s
    else s.(durable := s.Next() - 1, disk := Sync(Write(s.disk, Staged(s))))
  }

  function SyncPoints(s: Log): seq<Disk>
    requires 0 <= s.Count() <= |s.entries|
  {
    if s.Count() == |s.entries| then []
    else [Write(s.disk, Staged(s)), Sync(Write(s.disk, Staged(s)))]
  }

  function Rewritten(start: nat, entries: seq<Entry>): Log {
    Log(start, entries, start + |entries| - 1, Replace(Image(start, entries)))
  }

  predicate BatchMatches(s: Log, first: nat, count: nat) {
    first <= s.durable + 1 && s.Next() <= first + count
  }

  /** Does the store accept the call (or ignore it), rather than throw? */
  predicate Accepts(s: Log, op: Op) {
    match op
    case WriteAt(index, _) => s.start <= index <= s.Next()
    case EndBatch(first, count) => count == 0 || s.Count() == |s.entries| || BatchMatches(s, first, count)
    case _ => true
  }

  /** The entries below `index`, followed by the pack, and the start index of the result. */
  function Packed(s: Log, index: nat, pack: seq<Entry>): (nat, seq<Entry>) {
    var kept := s.entries[..Below(s.start, |s.entries|, index)];
    (if kept == [] then index else s.start, kept + pack)
  }

  function Compacted(s: Log, last: nat): (nat, seq<Entry>) {
    var gone := Below(s.start, |s.entries|, last + 1);
    (if s.start <= last then last + 1 else s.start, s.entries[gone..])
  }

  function Step(s: Log, op: Op): Log
    requires 0 <= s.Count() <= |s.entries|
  {
    if !Accepts(s, op) then s else
    match op
    case AppendEntry(e) => s.(entries := s.entries + [e])
    case WriteAt(index, e) =>
      var t := Synced(s);
      var kept := t.entries[..index - s.start];
      t.(entries := kept + [e], durable := index - 1, disk := Cut(t.disk, |Image(s.start, kept)|))
    case EndBatch(_, count) => if count == 0 then s else Synced(s)
    case Flush => var t := Synced(s); t.(disk := Sync(t.disk))
    case Compact(last) => var (start, entries) := Compacted(s, last); Rewritten(start, entries)
    case ApplyPack(index, pack) => var (start, entries) := Packed(s, index, pack); Rewritten(start, entries)
  }

  /** Every state of the disk the operation passes through, in order. */
  function Points(s: Log, op: Op): seq<Disk>
    requires 0 <= s.Count() <= |s.entries|
  {
    if !Accepts(s, op) then [] else
    match op
    case AppendEntry(_) => []
    case EndBatch(_, count) => if count == 0 then [] else SyncPoints(s)
    case _ => SyncPoints(s) + [Step(s, op).disk]
  }

  // ---- Side conditions ----

  /** `apply_pack` leaves a contiguous, loadable log if and only if its index is positive and
      its entries, if any, do not start beyond the end of a non-empty log. */
  predicate GapFree(s: Log, index: nat, pack: seq<Entry>) {
    index >= 1 && (pack == [] || s.entries == [] || index <= s.Next())
  }

  /** What the store needs of its caller: entries the encoder accepts, indexes below 2^64 and
      gap-free packs. */
  ghost predicate Legal(s: Log, op: Op) {
    match op
    case AppendEntry(e) => Encodable(e) && s.Next() + 1 < U64
    case WriteAt(index, e) => Encodable(e) && index + 1 < U64
    case EndBatch(first, count) => first + count < U64
    case Flush => true
    case Compact(last) => last + 1 + |s.entries| < U64
    case ApplyPack(index, pack) =>
      GapFree(s, index, pack) && AllEncodable(pack) && index + |pack| < U64
  }

  /** The indexes an operation does not overwrite or discard. */
  predicate Keeps(op: Op, i: nat) {
    match op
    case WriteAt(index, _) => i < index
    case ApplyPack(index, _) => i < index
    case Compact(last) => last < i
    case _ => true
  }

  // ---- Invariant preservation ----

  lemma ContentsOfPair(synced: Bytes, a: FileOp, b: FileOp)
    ensures Contents(Disk(synced, [a])) == RunOp(synced, a)
    ensures Contents(Disk(synced, [a, b])) == RunOp(RunOp(synced, a), b)
  {
    assert [a][..0] == [] && [a][0] == a;
    assert [a, b][..1] == [a];
    assert RunOps(synced, [a]) == RunOp(RunOps(synced, []), a);
  }

  lemma ContentsAreDurable(s: Log, older: seq<Entry>)
    requires Shape(s) && DiskHolds(s, older)
    ensures Contents(s.disk) == Image(s.start, s.entries[..s.Count()])
  {
    hide Image;
    var n := s.Count();
    ImagePrefix(s.start, older, n);
    if s.disk.ops == [] {
      assert older[..n] == older;
    } else {
      ContentsOfPair(s.disk.synced, s.disk.ops[0], s.disk.ops[0]);
      assert s.disk.ops == [s.disk.ops[0]];
    }
  }

  /** After syncing, the disk is exactly the image of the log. */
  lemma SyncedDisk(s: Log)
    requires Inv(s)
    ensures Inv(Synced(s)) && Synced(s).disk == Disk(Image(s.start, s.entries), [])
    ensures Synced(s).Count() == |s.entries|
  {
    hide Image, Frames;
    var older :| DiskHolds(s, older);
    ContentsAreDurable(s, older);
    ImagePrefix(s.start, s.entries, s.Count());
    var t := Synced(s);
    if s.Count() == |s.entries| {
      assert s.entries[..s.Count()] == s.entries;
      assert older[..s.Count()] == older;
    } else {
      var w := Write(s.disk, Staged(s));
      assert w.ops[..|w.ops| - 1] == s.disk.ops;
      assert Contents(w) == Contents(s.disk) + Staged(s);
    }
    assert t.entries[..t.Count()] == t.entries;
    assert DiskHolds(t, s.entries);
  }

  lemma RewrittenInv(start: nat, entries: seq<Entry>)
    requires start >= 1 && start + |entries| < U64 && AllEncodable(entries)
    ensures Inv(Rewritten(start, entries))
  {
    var t := Rewritten(start, entries);
    assert entries[..|entries|] == entries;
    assert DiskHolds(t, entries);
  }

  lemma CompactShape(s: Log, last: nat)
    requires Shape(s) && Legal(s, Compact(last))
    ensures var (start, entries) := Compacted(s, last);
            start >= 1 && start + |entries| < U64 && AllEncodable(entries)
    ensures var (start, entries) := Compacted(s, last);
            forall i: nat, e :: At(s.start, s.entries, i, e) && last < i ==> At(start, entries, i, e)
  {
  }

  lemma PackShape(s: Log, index: nat, pack: seq<Entry>)
    requires Shape(s) && Legal(s, ApplyPack(index, pack))
    ensures var (start, entries) := Packed(s, index, pack);
            start >= 1 && start + |entries| < U64 && AllEncodable(entries)
    ensures var (start, entries) := Packed(s, index, pack);
            forall i: nat, e :: At(s.start, s.entries, i, e) && i < index ==> At(start, entries, i, e)
  {
  }

  lemma AppendInv(s: Log, e: Entry)
    requires Inv(s) && Encodable(e) && s.Next() + 1 < U64
    ensures Inv(s.(entries := s.entries + [e]))
  {
    hide Image, Encodable;
    var t := s.(entries := s.entries + [e]);
    var older :| DiskHolds(s, older);
    assert t.entries[..t.Count()] == s.entries[..s.Count()];
    assert DiskHolds(t, older);
  }

  lemma WriteAtInv(s: Log, index: nat, e: Entry)
    requires Inv(s) && Encodable(e) && index + 1 < U64 && Accepts(s, WriteAt(index, e))
    ensures Inv(Step(s, WriteAt(index, e)))
  {
    hide Image, Encodable, Synced;
    SyncedDisk(s);
    SyncedEntries(s);
    var t := Step(s, WriteAt(index, e));
    assert t.entries[..t.Count()] == s.entries[..index - s.start];
    assert DiskHolds(t, s.entries);
  }

  lemma SyncedEntries(s: Log)
    requires Inv(s)
    ensures Synced(s).start == s.start && Synced(s).entries == s.entries
  {
  }

  lemma StepInv(s: Log, op: Op)
    requires Inv(s) && Legal(s, op)
    ensures Inv(Step(s, op))
  {
    hide Image, Inv, DiskHolds, Synced, Encodable, Compacted, Packed;
    ShapeOfInv(s);
    SyncedDisk(s);
    match op {
      case AppendEntry(e) => AppendInv(s, e);
      case WriteAt(index, e) =>
        if Accepts(s, op) {
          WriteAtInv(s, index, e);
        }
      case EndBatch(_, _) =>
      case Flush =>
        assert Contents(Synced(s).disk) == Synced(s).disk.synced;
      case Compact(last) =>
        CompactShape(s, last);
        RewrittenInv(Step(s, op).start, Step(s, op).entries);
      case ApplyPack(index, pack) =>
        PackShape(s, index, pack);
        RewrittenInv(Step(s, op).start, Step(s, op).entries);
    }
  }

  lemma ShapeOfInv(s: Log)
    requires Inv(s)
    ensures Shape(s)
  {
  }

  // ---- What a crash leaves ----

  /** Some cut of some log image with the store's start index that reaches past the first `n`
      entries, which are the store's. */
  ghost predicate CutImage(image: Bytes, s: Log, n: nat, other: seq<Entry>, cut: nat)
    requires n <= |s.entries|
  {
    && AllEncodable(other) && s.start + |other| < U64
    && n <= |other| && other[..n] == s.entries[..n]
    && |Image(s.start, other[..n])| <= cut <= |Image(s.start, other)|
    && image == Image(s.start, other)[..cut]
  }

  lemma CutImageLoads(image: Bytes, s: Log, n: nat, other: seq<Entry>, cut: nat)
    requires Shape(s) && n <= |s.entries| && CutImage(image, s, n, other, cut)
    requires |image| <= MAX_FILE
    ensures var r := Load(image);
            && r.Ok? && r.value.start == s.start && s.start + |r.value.entries| < U64
            && AllEncodable(r.value.entries) && r.value.size <= |image|
            && image[..r.value.size] == Image(s.start, r.value.entries)
            && n <= |r.value.entries| && r.value.entries[..n] == s.entries[..n]
  {
    hide Load, Encodable;
    TornTail(s.start, other, cut);
    var m := WholeFrames(other, cut - HEADER_SIZE);
    assert n <= m by {
      if m < n {
        ImageMonotone(s.start, other, m + 1, n);
      }
    }
    assert other[..m][..n] == other[..n];
    ImagePrefix(s.start, other, m);
    assert image[..|Image(s.start, other[..m])|] == Image(s.start, other)[..|Image(s.start, other[..m])|];
  }

  lemma ImageMonotone(start: nat, es: seq<Entry>, m: nat, n: nat)
    requires m <= n <= |es|
    ensures |Image(start, es[..m])| <= |Image(start, es[..n])|
  {
    ImagePrefix(start, es[..n], m);
    assert es[..n][..m] == es[..m];
  }

  /** Any crash between operations leaves a cut image holding every durable entry. */
  lemma CrashBetween(s: Log, image: Bytes) returns (other: seq<Entry>, cut: nat)
    requires Inv(s) && CrashImage(s.disk, image)
    ensures CutImage(image, s, s.Count(), other, cut)
  {
    hide Image;
    var older :| DiskHolds(s, older);
    var n := s.Count();
    ImagePrefix(s.start, older, n);
    other := older;
    var k :| 0 <= k <= |s.disk.ops| && CrashAfter(s.disk, k, image);
    if k == 0 {
      assert image == Image(s.start, older);
      cut := |image|;
    } else {
      ContentsAreDurable(s, older);
      assert s.disk.ops[..1] == s.disk.ops;
      cut := |Image(s.start, older[..n])|;
    }
  }

  lemma TornStaged(s: Log, m: nat) returns (cut: nat)
    requires Shape(s) && m <= |Staged(s)|
    ensures CutImage(Image(s.start, s.entries[..s.Count()]) + Staged(s)[..m], s, s.Count(), s.entries, cut)
  {
    hide Image, Frames;
    var n := s.Count();
    ImagePrefix(s.start, s.entries, n);
    var base := Image(s.start, s.entries[..n]);
    cut := |base| + m;
    CutSecond(base, Staged(s), cut);
  }

  /** What a reader of the live file sees between operations. */
  lemma DurableContents(s: Log)
    requires Inv(s)
    ensures Shape(s) && Contents(s.disk) == Image(s.start, s.entries[..s.Count()])
  {
    hide Image, Contents;
    var older :| DiskHolds(s, older);
    ContentsAreDurable(s, older);
  }

  /** A crash while the staged frames are written: whatever part of them arrived. */
  lemma CrashWhileWriting(s: Log, image: Bytes) returns (other: seq<Entry>, cut: nat)
    requires Inv(s) && s.Count() < |s.entries|
    requires CrashImage(Write(s.disk, Staged(s)), image)
    ensures CutImage(image, s, s.Count(), other, cut)
  {
    hide Image, CutImage, Inv, Staged, CrashImage, Write;
    ShapeOfInv(s);
    DurableContents(s);
    CrashOfWrite(s.disk, Staged(s), image);
    if CrashImage(s.disk, image) {
      other, cut := CrashBetween(s, image);
    } else {
      var m :| 0 <= m <= |Staged(s)| && image == Contents(s.disk) + Staged(s)[..m];
      other := s.entries;
      cut := TornStaged(s, m);
    }
  }

  ghost predicate HasDurable(s: Log, i: nat, e: Entry) {
    At(s.start, s.entries, i, e) && i <= s.durable
  }

  /** What loading gives after a crash, for the indexes that the interrupted operation keeps. */
  ghost predicate Recovers(s: Log, op: Op, image: Bytes) {
    && Load(image).Ok?
    && var found := Load(image).value;
       && 1 <= found.start && found.start + |found.entries| < U64 && AllEncodable(found.entries)
       && found.size <= |image| && image[..found.size] == Image(found.start, found.entries)
       && forall i: nat, e :: HasDurable(s, i, e) && Keeps(op, i) ==> At(found.start, found.entries, i, e)
  }

  lemma CutImageRecovers(s: Log, op: Op, image: Bytes, n: nat, other: seq<Entry>, cut: nat)
    requires Shape(s) && n <= |s.entries| && CutImage(image, s, n, other, cut) && |image| <= MAX_FILE
    requires forall i: nat, e :: HasDurable(s, i, e) && Keeps(op, i) ==> i < s.start + n
    ensures Recovers(s, op, image)
  {
    hide Load, Image, Encodable;
    CutImageLoads(image, s, n, other, cut);
    var found := Load(image).value;
    forall i: nat, e | HasDurable(s, i, e) && Keeps(op, i)
      ensures At(found.start, found.entries, i, e)
    {
      assert found.entries[..n][i - s.start] == s.entries[..n][i - s.start];
    }
  }

  lemma WholeImageRecovers(s: Log, op: Op, start: nat, entries: seq<Entry>)
    requires start >= 1 && start + |entries| < U64 && AllEncodable(entries) && |Image(start, entries)| <= MAX_FILE
    requires forall i: nat, e :: HasDurable(s, i, e) && Keeps(op, i) ==> At(start, entries, i, e)
    ensures Recovers(s, op, Image(start, entries))
  {
    hide Image, Load;
    LoadWholeImage(start, entries);
    var image := Image(start, entries);
    assert image[..|image|] == image;
  }

  /** A disk with nothing un-synced crashes to itself. */
  lemma CrashOfSynced(bytes: Bytes, image: Bytes)
    requires CrashImage(Disk(bytes, []), image)
    ensures image == bytes
  {
  }

  lemma SyncPointRecovers(s: Log, op: Op, d: Disk, image: Bytes)
    requires Inv(s) && d in SyncPoints(s) && CrashImage(d, image) && |image| <= MAX_FILE
    ensures Recovers(s, op, image)
  {
    hide Image, Recovers, Frames;
    SyncedDisk(s);
    if d == Write(s.disk, Staged(s)) {
      var other, cut := CrashWhileWriting(s, image);
      CutImageRecovers(s, op, image, s.Count(), other, cut);
    } else {
      CrashOfSynced(Image(s.start, s.entries), image);
      WholeImageRecovers(s, op, s.start, s.entries);
    }
  }

  lemma WriteAtPointRecovers(s: Log, index: nat, e: Entry, image: Bytes)
    requires Inv(s) && Legal(s, WriteAt(index, e)) && Accepts(s, WriteAt(index, e))
    requires CrashImage(Step(s, WriteAt(index, e)).disk, image) && |image| <= MAX_FILE
    ensures Recovers(s, WriteAt(index, e), image)
  {
    var op := WriteAt(index, e);
    var t := Step(s, op);
    StepInv(s, op);
    var n := index - s.start;
    assert t.start == s.start && t.Count() == n && t.entries[..n] == s.entries[..n] by {
      hide Image, Inv, CrashImage;
      SyncedEntries(s);
    }
    hide Image, Recovers, Frames, Encodable, CrashImage, Step, Inv, Legal;
    var other, cut := CrashBetween(t, image);
    assert CutImage(image, s, n, other, cut);
    CutImageRecovers(s, op, image, n, other, cut);
  }

  lemma LastPointRecovers(s: Log, op: Op, image: Bytes)
    requires Inv(s) && Legal(s, op) && Accepts(s, op) && !op.AppendEntry? && !op.EndBatch?
    requires CrashImage(Step(s, op).disk, image) && |image| <= MAX_FILE
    ensures Recovers(s, op, image)
  {
    hide Image, Recovers, Frames, Encodable, CrashImage;
    var t := Step(s, op);
    match op {
      case WriteAt(index, e) =>
        WriteAtPointRecovers(s, index, e, image);
      case Flush =>
        SyncedDisk(s);
        assert Contents(Synced(s).disk) == Image(s.start, s.entries);
        CrashOfSynced(Image(s.start, s.entries), image);
        WholeImageRecovers(s, op, s.start, s.entries);
      case Compact(last) =>
        CompactShape(s, last);
        CrashOfSynced(Image(t.start, t.entries), image);
        WholeImageRecovers(s, op, t.start, t.entries);
      case ApplyPack(index, pack) =>
        PackShape(s, index, pack);
        CrashOfSynced(Image(t.start, t.entries), image);
        WholeImageRecovers(s, op, t.start, t.entries);
    }
  }

  /** Crash safety of one operation: at every point before, during and after it, for every
      image a crash can leave there, loading succeeds and returns every durable entry that the
      operation keeps. */
  lemma CrashSafe(s: Log, op: Op, d: Disk, image: Bytes)
    requires Inv(s) && Legal(s, op)
    requires d == s.disk || d in Points(s, op)
    requires CrashImage(d, image) && |image| <= MAX_FILE
    ensures Recovers(s, op, image)
  {
    hide Image, Recovers, Frames, Legal, CrashImage, Step;
    if d == s.disk {
      var other, cut := CrashBetween(s, image);
      CutImageRecovers(s, op, image, s.Count(), other, cut);
    } else if d in SyncPoints(s) {
      SyncPointRecovers(s, op, d, image);
    } else {
      LastPointRecovers(s, op, image);
    }
  }

  // ---- Whole runs with crashes ----

  /** An operation that completes, or one interrupted by a crash that leaves `image`, after
      which the file is loaded again. */
  datatype Event = Done(op: Op) | Crashed(op: Op, image: Bytes)

  ghost predicate Possible(s: Log, e: Event) {
    && Legal(s, e.op)
    && (e.Crashed? ==>
          && |e.image| <= MAX_FILE && 0 <= s.Count() <= |s.entries|
          && exists d :: (d == s.disk || d in Points(s, e.op)) && CrashImage(d, e.image))
  }

  /** The store that loading `image` leaves: the torn tail is cut off and synced away. */
  function Reopened(image: Bytes): Log {
    match Load(image)
    case Ok(found) =>
      var kept := if found.size <= |image| then image[..found.size] else image;
      Log(found.start, found.entries, found.start + |found.entries| - 1, Replace(kept))
    case Err(_) => Fresh()
  }

  function After(s: Log, e: Event): Log
    requires 0 <= s.Count() <= |s.entries|
  {
    match e
    case Done(op) => Step(s, op)
    case Crashed(_, image) => Reopened(image)
  }

  ghost predicate Run(s: Log, events: seq<Event>, t: Log)
    decreases events
  {
    if events == [] then s == t
    else 0 <= s.Count() <= |s.entries| && Possible(s, events[0]) && Run(After(s, events[0]), events[1..], t)
  }

  lemma AfterKeeps(s: Log, ev: Event)
    requires Inv(s) && Possible(s, ev)
    ensures Inv(After(s, ev))
    ensures forall i: nat, e :: HasDurable(s, i, e) && Keeps(ev.op, i) ==> HasDurable(After(s, ev), i, e)
  {
    hide Image, Load, Frames, Encodable;
    if ev.Done? {
      StepInv(s, ev.op);
      StepKeeps(s, ev.op);
    } else {
      var d :| (d == s.disk || d in Points(s, ev.op)) && CrashImage(d, ev.image);
      CrashSafe(s, ev.op, d, ev.image);
      var found := Load(ev.image).value;
      RewrittenInv(found.start, found.entries);
      assert Reopened(ev.image) == Rewritten(found.start, found.entries);
    }
  }

  lemma StepKeeps(s: Log, op: Op)
    requires Inv(s) && Legal(s, op)
    ensures forall i: nat, e :: HasDurable(s, i, e) && Keeps(op, i) ==> HasDurable(Step(s, op), i, e)
  {
    hide Image, Frames, Encodable;
    match op {
      case Compact(last) => CompactShape(s, last);
      case ApplyPack(index, pack) => PackShape(s, index, pack);
      case _ =>
    }
  }

  lemma FreshInv()
    ensures Inv(Fresh())
  {
    RewrittenInv(1, []);
  }

  /** Durability over whole runs: from any reachable store, through any sequence of operations,
      crashes at any point and restarts, an entry that was durable stays durable with the same
      bytes unless an operation overwrites or discards its index. */
  lemma {:induction false} DurableForever(s: Log, events: seq<Event>, t: Log, i: nat, e: Entry)
    requires Inv(s) && Run(s, events, t)
    requires HasDurable(s, i, e) && forall k :: 0 <= k < |events| ==> Keeps(events[k].op, i)
    ensures Inv(t) && HasDurable(t, i, e)
    decreases events
  {
    hide Inv, Possible, HasDurable, Keeps, After;
    if events != [] {
      AfterKeeps(s, events[0]);
      DurableForever(After(s, events[0]), events[1..], t, i, e);
    }
  }
}
