/** The log store as the source keeps it: an entry index, a file-offset index, a staged byte
    buffer, a durable index and a file. Every method is proved to perform its step of
    `LogModel` and to pass through exactly the disk states that step lists. */
module FileLogStore {
  import opened Bytes
  import opened Fnv
  import opened BinaryCodec
  import opened WalFormat
  import opened Disk
  import opened SortedMap
  import opened LogModel
  import opened LogEffects

  // ---- Encoding the index ----

  /** The frames of an entry index in key order, each under its own key. */
  function MapFrames(m: SortedMap<Entry>): Bytes {
    if m == [] then [] else Frame(m[0].0, m[0].1) + MapFrames(m[1..])
  }

  function EncodeAll(start: nat, m: SortedMap<Entry>): Bytes {
    Header(start) + MapFrames(m)
  }

  lemma {:induction false} MapFramesNumbered(start: nat, es: seq<Entry>)
    ensures MapFrames(Numbered(start, es)) == Frames(start, es)
    decreases es
  {
    if es != [] {
      MapFramesNumbered(start + 1, es[1..]);
    }
  }

  lemma {:induction false} MapFramesConcat(a: SortedMap<Entry>, b: SortedMap<Entry>)
    ensures MapFrames(a + b) == MapFrames(a) + MapFrames(b)
  {
    if a == [] {
      assert a + b == b;
    } else {
      assert (a + b)[1..] == a[1..] + b;
      MapFramesConcat(a[1..], b);
    }
  }

  /** Where each frame of a log starts in its file. */
  function OffsetList(start: nat, es: seq<Entry>): (offsets: seq<nat>)
    ensures |offsets| == |es|
  {
    seq(|es|, i requires 0 <= i < |es| => |Image(start, es[..i])|)
  }

  lemma OffsetListSnoc(start: nat, es: seq<Entry>, e: Entry)
    ensures OffsetList(start, es + [e]) == OffsetList(start, es) + [|Image(start, es)|]
  {
    hide Image;
    assert (es + [e])[..|es|] == es;
    forall i | 0 <= i < |es|
      ensures (es + [e])[..i] == es[..i]
    {
    }
  }

  lemma OffsetListEmpty(start: nat)
    ensures OffsetList(start, []) == [] && |Image(start, [])| == HEADER_SIZE
  {
  }

  lemma ImageSnoc(start: nat, es: seq<Entry>, e: Entry)
    ensures |Image(start, es + [e])| == |Image(start, es)| + FRAME_OVERHEAD + |e|
  {
    hide Frame, Header;
    FramesSnoc(start, es, e);
  }

  lemma OffsetListTake(start: nat, es: seq<Entry>, n: nat)
    requires n <= |es|
    ensures OffsetList(start, es)[..n] == OffsetList(start, es[..n])
  {
    hide Image;
    forall i | 0 <= i < n
      ensures es[..n][..i] == es[..i]
    {
    }
  }

  /** `apply_pack` writes what `encode_all_locked` makes of the kept entries and the pack. The
      file loads again if and only if the call was gap-free. */
  lemma ApplyPackLoadsIff(s: Log, index: nat, pack: seq<Entry>)
    requires Shape(s) && AllEncodable(pack) && index + |pack| < U64
    requires |EncodeAll(Packed(s, index, pack).0, PackedIndex(s, index, pack))| <= MAX_FILE
    ensures Load(EncodeAll(Packed(s, index, pack).0, PackedIndex(s, index, pack))).Ok? <==> GapFree(s, index, pack)
    ensures GapFree(s, index, pack) ==>
              EncodeAll(Packed(s, index, pack).0, PackedIndex(s, index, pack))
              == Step(s, ApplyPack(index, pack)).disk.synced
  {
    hide Load, Frame, Header;
    var kept := s.entries[..Below(s.start, |s.entries|, index)];
    var start := Packed(s, index, pack).0;
    MapFramesConcat(Numbered(s.start, kept), Numbered(index, pack));
    MapFramesNumbered(s.start, kept);
    MapFramesNumbered(index, pack);
    var image := EncodeAll(start, PackedIndex(s, index, pack));
    if GapFree(s, index, pack) {
      PackShape(s, index, pack);
      FramesConcat(start, kept, pack);
      assert image == Image(start, kept + pack) by {
        if kept == [] {
          assert Frames(s.start, kept) == [] == Frames(start, kept);
        }
        if pack == [] {
          assert Frames(index, pack) == [] == Frames(start + |kept|, pack);
        }
      }
      LoadWholeImage(start, kept + pack);
    } else if index == 0 {
      ZeroStartRejected(MapFrames(PackedIndex(s, index, pack)));
    } else {
      assert kept == s.entries;
      var tail := Frames(index + 1, pack[1..]);
      assert image == Image(s.start, kept) + (Frame(index, pack[0]) + tail);
      GapRejected(s.start, kept, index, pack[0], tail);
    }
  }

  /** The entry index after `apply_pack`. */
  function PackedIndex(s: Log, index: nat, pack: seq<Entry>): SortedMap<Entry> {
    Numbered(s.start, s.entries[..Below(s.start, |s.entries|, index)]) + Numbered(index, pack)
  }

  lemma ZeroStartRejected(rest: Bytes)
    ensures Load(Header(0) + rest).Err?
  {
    hide Scan, Fnv1a64, BigEndian, Unsigned;
    var b := Header(0) + rest;
    Widths();
    UnsignedOfBigEndian(0, 8);
    assert HeaderPrefix(0)[8..16] == BigEndian(0, 8);
    assert b[8..16] == HeaderPrefix(0)[8..16];
  }

  // ---- Loading ----

  /** Is there room for a whole frame of the length written at this position? */
  predicate FitsAt(bytes: Bytes, position: nat)
    requires position <= |bytes|
  {
    |bytes| - position >= 4
    && var size := Unsigned(bytes[position..position + 4]);
       16 <= size <= MAX_ENTRY + 32 && |bytes| - position - 4 >= size + 8
  }

  /** One turn of the frame loop, by positions in the whole file. */
  lemma ScanAt(bytes: Bytes, position: nat, expected: nat)
    requires position <= |bytes|
    ensures var r := Scan(bytes[position..], expected);
            if !FitsAt(bytes, position) then r == Ok(Scanned([], 0)) else
            var size := Unsigned(bytes[position..position + 4]);
            var next := position + 12 + size;
            var body := bytes[position + 4..position + 4 + size];
            if Unsigned(bytes[position + 4 + size..next]) != Fnv1a64(body) then
              r == if next != |bytes| then Err(WalChecksum) else Ok(Scanned([], 0))
            else match DecodeBody(body, expected)
              case Err(fault) => r == Err(fault)
              case Ok(entry) =>
                match Scan(bytes[next..], expected + 1)
                case Err(fault) => r == Err(fault)
                case Ok(rest) => r == Ok(Scanned([entry] + rest.entries, 12 + size + rest.size))
  {
    hide DecodeBody, Fnv1a64, Unsigned;
    var s := bytes[position..];
    if |s| >= 4 {
      Slice(bytes, position, 0, 4);
      var size := Unsigned(s[..4]);
      if FitsAt(bytes, position) {
        Slice(bytes, position, 4, 4 + size);
        Slice(bytes, position, 4 + size, 12 + size);
        Slice(bytes, position, 12 + size, |s|);
        assert s[12 + size..] == s[12 + size..|s|];
      }
    }
  }

  lemma Slice(bytes: Bytes, position: nat, from: nat, to: nat)
    requires from <= to && position + to <= |bytes|
    ensures bytes[position..][from..to] == bytes[position + from..position + to]
  {
  }

  /** `load_wal_locked`: one pass over the frames, building the entry and offset indexes. */
  method LoadFrames(bytes: Bytes, start: nat) returns (r: Result<(seq<Entry>, seq<nat>, nat)>)
    requires |bytes| >= HEADER_SIZE
    ensures var all := Scan(bytes[HEADER_SIZE..], start);
            if all.Err? then r == Err(all.error) else
            && r.Ok? && r.value.0 == all.value.entries && r.value.2 == HEADER_SIZE + all.value.size
            && r.value.1 == OffsetList(start, all.value.entries)
  {
    hide DecodeBody, Fnv1a64, Unsigned, OffsetList, Image, Frames, Body, Scan;
    OffsetListEmpty(start);
    var position, expected, validSize := HEADER_SIZE, start, HEADER_SIZE;
    var found: seq<Entry>, offsets: seq<nat> := [], [];
    ghost var all := Scan(bytes[HEADER_SIZE..], start);
    if all.Ok? {
      assert [] + all.value.entries == all.value.entries;
    }
    while position < |bytes|
      invariant HEADER_SIZE <= position <= |bytes| && validSize == position
      invariant offsets == OffsetList(start, found) && position == |Image(start, found)|
      invariant var rest := Scan(bytes[position..], expected);
                all == if rest.Err? then rest
                       else Ok(Scanned(found + rest.value.entries, position - HEADER_SIZE + rest.value.size))
    {
      ScanAt(bytes, position, expected);
      if |bytes| - position < 4 {
        break;
      }
      var frameOffset := position;
      var size := Unsigned(bytes[position..position + 4]);
      if size < 16 || size > MAX_ENTRY + 32 || |bytes| - position - 4 < size + 8 {
        break;
      }
      var body := bytes[position + 4..position + 4 + size];
      var stored := Unsigned(bytes[position + 4 + size..position + 12 + size]);
      var sum := Checksum(body);
      if stored != sum {
        if position + 12 + size != |bytes| {
          return Err(WalChecksum);
        }
        break;
      }
      var entry := DecodeBody(body, expected);
      if entry.Err? {
        return Err(entry.error);
      }
      ghost var rest := Scan(bytes[position + 12 + size..], expected + 1);
      if rest.Ok? {
        assert found + ([entry.value] + rest.value.entries) == found + [entry.value] + rest.value.entries;
      }
      DecodeBodyInverse(body, expected);
      OffsetListSnoc(start, found, entry.value);
      ImageSnoc(start, found, entry.value);
      found := found + [entry.value];
      offsets := offsets + [frameOffset];
      position := position + 12 + size;
      expected := expected + 1;
      validSize := position;
    }
    ScanAt(bytes, position, expected);
    return Ok((found, offsets, validSize));
  }

  // ---- The in-memory indexes ----

  /** What the store keeps in memory besides the start and durable indexes. */
  datatype Index = Index(
    entries: SortedMap<Entry>,
    offsets: SortedMap<nat>,
    pending: Bytes,
    pendingStart: nat,
    pendingCount: nat,
    fileSize: nat)

  /** All the indexes agree with the one sequence: the offset of index i is the size of the
      image before it, the staged bytes are the frames after the durable index, and durable
      index + pending count + 1 is the next slot. */
  ghost predicate Represents(x: Index, s: Log) {
    && 0 <= s.Count() <= |s.entries|
    && x.entries == Numbered(s.start, s.entries)
    && x.offsets == Numbered<nat>(s.start, OffsetList(s.start, s.entries))
    && x.pending == Staged(s)
    && s.durable + x.pendingCount + 1 == s.Next()
    && x.pendingStart == (if x.pendingCount == 0 then 0 else s.durable + 1)
    && x.fileSize == |Image(s.start, s.entries[..s.Count()])|
  }

  /** Stages one frame. */
  function Queued(x: Index, index: nat, e: Entry): Index {
    x.(offsets := Put<nat>(x.offsets, index, x.fileSize + |x.pending|),
       pending := x.pending + Frame(index, e),
       pendingStart := if x.pendingCount == 0 then index else x.pendingStart,
       pendingCount := x.pendingCount + 1)
  }

  /** What staging an entry answers. */
  function StagingResult(x: Index, index: nat, e: Entry): Result<()> {
    if x.pendingCount > 0 && index != x.pendingStart + x.pendingCount then Err(PendingGap)
    else if !Encodable(e) then Err(EntrySize) else Ok(())
  }

  /** What entering an entry and staging its frame leaves. The entry index is updated whatever the
      staging answers. */
  function StagedIndex(x: Index, index: nat, e: Entry): Index {
    var y := x.(entries := Put(x.entries, index, e));
    var r := StagingResult(x, index, e);
    if r.Ok? then Queued(y, index, e)
    else if r == Err(EntrySize) && x.pendingCount == 0 then y.(pendingStart := index)
    else y
  }

  /** The slot after the last entry. */
  function NextOf(start: nat, m: SortedMap<Entry>): nat {
    if m == [] then start else m[|m| - 1].0 + 1
  }

  lemma NextOfNumbered(start: nat, es: seq<Entry>)
    ensures NextOf(start, Numbered(start, es)) == start + |es|
  {
    if es != [] {
      NumberedAt(start, es, |es| - 1);
    }
  }

  /** From indexes that agree, staging fails only for an entry that cannot be encoded, and then
      the indexes agree with no log at all. */
  lemma StagingAgrees(x: Index, s: Log, e: Entry)
    requires Represents(x, s)
    ensures StagingResult(x, s.Next(), e) == if Encodable(e) then Ok(()) else Err(EntrySize)
    ensures Encodable(e) ==> Represents(StagedIndex(x, s.Next(), e), s.(entries := s.entries + [e]))
    ensures !Encodable(e) ==> forall t: Log :: !Represents(StagedIndex(x, s.Next(), e), t)
    ensures StagedIndex(x, s.Next(), e).entries == x.entries + [(s.Next(), e)]
  {
    hide Represents, Queued, Put, Encodable;
    RepresentsEntries(x, s);
    QueueRepresents(x, s, e);
    var y := StagedIndex(x, s.Next(), e);
    assert y.entries == x.entries + [(s.Next(), e)] by {
      QueuedEntries(x.(entries := Put(x.entries, s.Next(), e)), s.Next(), e);
    }
    forall t: Log | !Encodable(e)
      ensures !Represents(y, t)
    {
      if Represents(y, t) {
        RepresentsEntries(y, t);
      }
    }
  }

  lemma AppendsNext(x: Index, s: Log, e: Entry, index: nat)
    requires Represents(x, s) && Inv(s) && index == NextOf(s.start, x.entries) && index + 1 < U64
    ensures index == s.Next() && StagingResult(x, index, e) == if Encodable(e) then Ok(()) else Err(EntrySize)
    ensures Encodable(e) ==>
              && Represents(StagedIndex(x, index, e), s.(entries := s.entries + [e]))
              && Inv(s.(entries := s.entries + [e]))
    ensures !Encodable(e) ==> forall t: Log :: !Represents(StagedIndex(x, index, e), t)
  {
    hide Represents, Inv, StagedIndex, StagingResult, Encodable, Numbered;
    RepresentsEntries(x, s);
    NextOfNumbered(s.start, s.entries);
    StagingAgrees(x, s, e);
    if Encodable(e) {
      AppendInv(s, e);
    }
  }

  lemma QueuedEntries(x: Index, index: nat, e: Entry)
    ensures Queued(x, index, e).entries == x.entries
  {
  }

  function Cleared(x: Index): Index {
    x.(pending := [], pendingStart := 0, pendingCount := 0)
  }

  lemma StagedSnoc(s: Log, e: Entry)
    requires 0 <= s.Count() <= |s.entries|
    ensures Staged(s.(entries := s.entries + [e])) == Staged(s) + Frame(s.Next(), e)
  {
    hide Frame;
    var n := s.Count();
    assert (s.entries + [e])[n..] == s.entries[n..] + [e];
    FramesSnoc(s.start + n, s.entries[n..], e);
  }

  lemma StagedSize(s: Log)
    requires 0 <= s.Count() <= |s.entries|
    ensures |Image(s.start, s.entries[..s.Count()])| + |Staged(s)| == |Image(s.start, s.entries)|
    ensures Staged(s) == [] <==> s.Count() == |s.entries|
  {
    hide Header, Frame;
    ImagePrefix(s.start, s.entries, s.Count());
  }

  lemma QueueRepresents(x: Index, s: Log, e: Entry)
    requires Represents(x, s)
    ensures Represents(Queued(x.(entries := Put(x.entries, s.Next(), e)), s.Next(), e), s.(entries := s.entries + [e]))
    ensures Put(x.entries, s.Next(), e) == x.entries + [(s.Next(), e)]
  {
    hide Image, Frames, OffsetList, Frame, Numbered, Put;
    StagedSize(s);
    StagedSnoc(s, e);
    PutNext(s.start, s.entries, e);
    NumberedSnoc(s.start, s.entries, e);
    OffsetListSnoc(s.start, s.entries, e);
    PutNext<nat>(s.start, OffsetList(s.start, s.entries), |Image(s.start, s.entries)|);
    assert (s.entries + [e])[..s.Count()] == s.entries[..s.Count()];
  }

  lemma SyncRepresents(x: Index, s: Log)
    requires Represents(x, s)
    ensures 0 <= s.Count() <= |s.entries|
    ensures Represents(if x.pending == [] then x else Cleared(x.(fileSize := x.fileSize + |x.pending|)), Synced(s))
    ensures x.pending == Staged(s) && (x.pending == [] <==> s.Count() == |s.entries|)
    ensures x.pending != [] ==> s.Next() == x.pendingStart + x.pendingCount
  {
    hide Image, Frames, OffsetList, Numbered;
    StagedSize(s);
    StagedSize(Synced(s));
    assert s.entries[..|s.entries|] == s.entries;
  }

  /** The offset index answers where to truncate, and erasing from `index` keeps the rest. */
  lemma CutRepresents(x: Index, s: Log, index: nat, d: Disk)
    requires Represents(x, s) && s.Count() == |s.entries| && s.start <= index <= s.Next()
    ensures var kept := s.entries[..index - s.start];
            var size := |Image(s.start, kept)|;
            && size == (match Get<nat>(x.offsets, index) case Some(offset) => offset case None => x.fileSize)
            && Represents(
                 x.(entries := EraseFrom(x.entries, index),
                    offsets := EraseFrom<nat>(x.offsets, index),
                    fileSize := size),
                 s.(entries := kept, durable := index - 1, disk := d))
  {
    hide Image, Frames, OffsetList, Numbered, Get, EraseFrom;
    var n := index - s.start;
    var kept := s.entries[..n];
    GetNumbered<nat>(s.start, OffsetList(s.start, s.entries), index);
    OffsetListAt(s.start, s.entries, index);
    assert s.entries[..|s.entries|] == s.entries;
    EraseFromNumbered(s.start, s.entries, index);
    EraseFromNumbered<nat>(s.start, OffsetList(s.start, s.entries), index);
    OffsetListTake(s.start, s.entries, n);
    assert kept[..n] == kept;
    StagedSize(s);
    StagedSize(s.(entries := kept, durable := index - 1, disk := d));
  }

  lemma FreshRepresents()
    ensures Represents(Index([], [], [], 0, 0, HEADER_SIZE), Fresh()) && Fresh() == Log(1, [], 0, Replace(Header(1)))
  {
    hide Header;
    OffsetListEmpty(1);
    assert Image(1, []) == Header(1);
  }

  /** The indexes do not depend on the disk. */
  lemma SameRepresents(x: Index, s: Log, t: Log)
    requires 0 <= t.Count() <= |t.entries|
    ensures Represents(x, Synced(t)) && s == Synced(t).(disk := s.disk) ==> Represents(x, s)
  {
  }

  lemma EncodeAllImage(start: nat, es: seq<Entry>)
    ensures EncodeAll(start, Numbered(start, es)) == Image(start, es)
  {
    MapFramesNumbered(start, es);
  }

  /** Where each frame of an entry index starts in its file, from a first offset on. */
  function OffsetsFrom(m: SortedMap<Entry>, at: nat): SortedMap<nat> {
    if m == [] then [] else [(m[0].0, at)] + OffsetsFrom(m[1..], at + |Frame(m[0].0, m[0].1)|)
  }

  lemma {:induction false} OffsetsSnoc(m: SortedMap<Entry>, pair: (nat, Entry), at: nat)
    ensures OffsetsFrom(m + [pair], at) == OffsetsFrom(m, at) + [(pair.0, at + |MapFrames(m)|)]
    ensures |MapFrames(m + [pair])| == |MapFrames(m)| + |Frame(pair.0, pair.1)|
  {
    hide Frame, MapFrames, OffsetsFrom;
    MapFramesConcat(m, [pair]);
    OneFrame(pair);
    if m == [] {
      assert m + [pair] == [pair];
      OneOffset(pair, at);
    } else {
      var next := at + |Frame(m[0].0, m[0].1)|;
      assert (m + [pair])[1..] == m[1..] + [pair];
      OffsetsSnoc(m[1..], pair, next);
      OffsetsHead(m, at);
      OffsetsHead(m + [pair], at);
    }
  }

  lemma OneOffset(pair: (nat, Entry), at: nat)
    ensures OffsetsFrom([pair], at) == [(pair.0, at)] && OffsetsFrom([], at) == [] && MapFrames([]) == []
  {
  }

  lemma OffsetsHead(m: SortedMap<Entry>, at: nat)
    requires m != []
    ensures OffsetsFrom(m, at) == [(m[0].0, at)] + OffsetsFrom(m[1..], at + |Frame(m[0].0, m[0].1)|)
    ensures MapFrames(m) == Frame(m[0].0, m[0].1) + MapFrames(m[1..])
  {
  }

  lemma {:induction false} OffsetsAscend(m: SortedMap<Entry>, at: nat)
    requires Ascending(m)
    ensures |OffsetsFrom(m, at)| == |m| && forall i :: 0 <= i < |m| ==> OffsetsFrom(m, at)[i].0 == m[i].0
  {
    hide Frame;
    if m != [] {
      OffsetsAscend(m[1..], at + |Frame(m[0].0, m[0].1)|);
    }
  }

  /** For a contiguous log these are the sizes of the images before each entry. */
  lemma {:induction false} OffsetsNumbered(start: nat, es: seq<Entry>)
    ensures OffsetsFrom(Numbered(start, es), HEADER_SIZE) == Numbered<nat>(start, OffsetList(start, es))
    ensures |MapFrames(Numbered(start, es))| + HEADER_SIZE == |Image(start, es)|
  {
    hide Frame, Image, OffsetList, Numbered, MapFrames, OffsetsFrom;
    EncodeAllImage(start, es);
    if es == [] {
      OffsetListEmpty(start);
      NoOffsets(start);
    } else {
      var n := |es| - 1;
      var before, e := es[..n], es[n];
      assert before + [e] == es;
      OffsetsNumbered(start, before);
      NumberedSnoc(start, before, e);
      OffsetsSnoc(Numbered(start, before), (start + n, e), HEADER_SIZE);
      OffsetListSnoc(start, before, e);
      NumberedSnoc<nat>(start, OffsetList(start, before), |Image(start, before)|);
    }
  }

  lemma NoOffsets(start: nat)
    ensures OffsetsFrom(Numbered<Entry>(start, []), HEADER_SIZE) == Numbered<nat>(start, []) == []
  {
  }

  lemma RewrittenRepresents(start: nat, es: seq<Entry>)
    ensures var offsets := Numbered<nat>(start, OffsetList(start, es));
            Represents(Index(Numbered(start, es), offsets, [], 0, 0, |Image(start, es)|), Rewritten(start, es))
  {
    hide Image, OffsetList, Numbered;
    assert es[..|es|] == es;
    StagedSize(Rewritten(start, es));
  }

  lemma RepresentsEntries(x: Index, s: Log)
    requires Represents(x, s)
    ensures x.entries == Numbered(s.start, s.entries) && |x.entries| == |s.entries| == |x.offsets|
    ensures s.Count() + x.pendingCount == |s.entries|
    ensures x.pendingCount > 0 ==> x.pendingStart == s.durable + 1
  {
  }

  lemma NumberedEmpty<V>(a: nat, b: nat)
    ensures Numbered<V>(a, []) == Numbered<V>(b, [])
  {
  }

  lemma OffsetListAt(start: nat, es: seq<Entry>, index: nat)
    ensures start <= index < start + |es| ==>
              OffsetList(start, es)[index - start] == |Image(start, es[..index - start])|
  {
  }

  /** The loop of `rewrite_locked` that recomputes where each frame starts. */
  method RebuildOffsets(entries: SortedMap<Entry>) returns (offsets: SortedMap<nat>)
    requires Ascending(entries)
    ensures offsets == OffsetsFrom(entries, HEADER_SIZE)
  {
    hide Frame, Put, OffsetsFrom, MapFrames;
    offsets := [];
    var offset := HEADER_SIZE;
    NothingBefore(entries);
    for i := 0 to |entries|
      invariant offset == HEADER_SIZE + |MapFrames(entries[..i])|
      invariant offsets == OffsetsFrom(entries[..i], HEADER_SIZE)
    {
      assert entries[..i] + [entries[i]] == entries[..i + 1];
      OffsetsSnoc(entries[..i], entries[i], HEADER_SIZE);
      OffsetsAscend(entries[..i], HEADER_SIZE);
      PutLast<nat>(offsets, entries[i].0, offset);
      offsets := Put<nat>(offsets, entries[i].0, offset);
      offset := offset + |Frame(entries[i].0, entries[i].1)|;
    }
    assert entries[..|entries|] == entries;
  }

  lemma NothingBefore(entries: SortedMap<Entry>)
    ensures OffsetsFrom(entries[..0], HEADER_SIZE) == [] && MapFrames(entries[..0]) == []
  {
  }

  ghost predicate AllPairsEncodable(m: SortedMap<Entry>) {
    forall i :: 0 <= i < |m| ==> Encodable(m[i].1)
  }

  /** `encode_all_locked`: the frames in key order, unless one entry cannot be encoded. */
  method EncodeEntries(start: nat, entries: SortedMap<Entry>) returns (r: Result<Bytes>)
    ensures r == if AllPairsEncodable(entries) then Ok(EncodeAll(start, entries)) else Err(EntrySize)
  {
    hide Frame, Header, MapFrames;
    var output := Header(start);
    NothingBefore(entries);
    for i := 0 to |entries|
      invariant output == Header(start) + MapFrames(entries[..i])
      invariant forall j :: 0 <= j < i ==> Encodable(entries[j].1)
    {
      if |entries[i].1| == 0 || |entries[i].1| > MAX_ENTRY {
        return Err(EntrySize);
      }
      assert entries[..i] + [entries[i]] == entries[..i + 1];
      MapFramesConcat(entries[..i], [entries[i]]);
      OneFrame(entries[i]);
      output := output + Frame(entries[i].0, entries[i].1);
    }
    assert entries[..|entries|] == entries;
    return Ok(output);
  }

  lemma OneFrame(pair: (nat, Entry))
    ensures MapFrames([pair]) == Frame(pair.0, pair.1)
  {
  }

  /** The loop of `apply_pack` that inserts the decoded entries after the kept ones. */
  method PlacePack(kept: SortedMap<Entry>, index: nat, pack: seq<Entry>) returns (entries: SortedMap<Entry>)
    requires forall i :: 0 <= i < |kept| ==> kept[i].0 < index
    ensures entries == kept + Numbered(index, pack)
  {
    hide Numbered, Put;
    entries := kept;
    NumberedEmpty<Entry>(index, 0);
    assert pack[..0] == [] && Numbered<Entry>(index, pack[..0]) == [] by { NothingNumbered(index); }
    for i := 0 to |pack|
      invariant entries == kept + Numbered(index, pack[..i])
    {
      assert pack[..i] + [pack[i]] == pack[..i + 1];
      NumberedSnoc(index, pack[..i], pack[i]);
      forall k | 0 <= k < |entries|
        ensures entries[k].0 < index + i
      {
        if k >= |kept| {
          NumberedAt(index, pack[..i], k - |kept|);
        }
      }
      PutLast(entries, index + i, pack[i]);
      entries := Put(entries, index + i, pack[i]);
    }
    assert pack[..|pack|] == pack;
  }

  lemma NothingNumbered(index: nat)
    ensures Numbered<Entry>(index, []) == []
  {
  }

  lemma CutContents(image: Bytes, size: nat)
    requires size <= |image|
    ensures Contents(Cut(Disk(image, []), size)) == image[..size]
  {
    ContentsOfPair(image, Truncate(size), Truncate(size));
    assert [] + [Truncate(size)] == [Truncate(size)];
  }

  /** A crash while loading truncates the torn tail changes nothing: either file loads as the
      same log. */
  lemma LoadingIsCrashSafe(image: Bytes, crashed: Bytes)
    requires Load(image).Ok? && Load(image).value.start + |Load(image).value.entries| < U64
    requires CrashImage(Cut(Disk(image, []), Load(image).value.size), crashed)
    ensures Load(crashed) == Load(image)
  {
    hide Load;
    LoadExact(image);
    var size := Load(image).value.size;
    CutContents(image, size);
    var d := Cut(Disk(image, []), size);
    var k :| 0 <= k <= |d.ops| && CrashAfter(d, k, crashed);
    assert k == 1 ==> d.ops[..1] == d.ops;
  }

  /** One less, wrapping around below zero. */
  function Before(index: nat): nat {
    if index > 0 then index - 1 else U64 - 1
  }

  /** What rewriting a contiguous index leaves is the rewritten log. */
  lemma RewrittenIndex(start: nat, es: seq<Entry>)
    requires start >= 1 && start + |es| < U64 && AllEncodable(es)
    ensures var m := Numbered(start, es);
            var bytes := EncodeAll(start, m);
            && AllPairsEncodable(m) && Inv(Rewritten(start, es))
            && Rewritten(start, es) == Log(start, es, Before(NextOf(start, m)), Replace(bytes))
            && Represents(Index(m, OffsetsFrom(m, HEADER_SIZE), [], 0, 0, |bytes|), Rewritten(start, es))
  {
    hide Inv, Represents, OffsetsFrom, Numbered, Encodable, Image, EncodeAll, NextOf;
    NumberedPairs(start, es);
    EncodeAllImage(start, es);
    OffsetsNumbered(start, es);
    NextOfNumbered(start, es);
    RewrittenInv(start, es);
    RewrittenRepresents(start, es);
  }

  function Predecessor(index: nat): nat {
    if index > 0 then index - 1 else 0
  }

  class FileLogStore {
    var startIndex: nat
    var entries: SortedMap<Entry>
    var offsets: SortedMap<nat>
    var pending: Bytes
    var pendingStart: nat
    var pendingCount: nat
    var durableIndex: nat
    var fileSize: nat
    var disk: Disk

    /** The plain sequence of entries this store stands for. */
    ghost var log: seq<Entry>
    /** Every state the disk has been in. */
    ghost var trace: seq<Disk>

    ghost function Model(): Log
      reads this
    {
      Log(startIndex, log, durableIndex, disk)
    }

    ghost function Indexes(): Index
      reads this
    {
      Index(entries, offsets, pending, pendingStart, pendingCount, fileSize)
    }

    ghost predicate Valid()
      reads this
    {
      Inv(Model()) && Represents(Indexes(), Model())
    }

    /** `load` when the file does not exist. */
    constructor ()
      ensures Valid() && Model() == Fresh() && trace == [disk]
    {
      hide Represents, Inv, Header;
      startIndex, entries, offsets := 1, [], [];
      pending, pendingStart, pendingCount := [], 0, 0;
      durableIndex, fileSize := 0, HEADER_SIZE;
      disk := Replace(Header(1));
      log := [];
      new;
      trace := [disk];
      FreshRepresents();
      FreshInv();
    }

    /** `load` of an existing file whose bytes are `image`: the torn tail is truncated and the
        truncation synced before the store is used. */
    constructor Restore(image: Bytes, start: nat, found: seq<Entry>, where: seq<nat>, validSize: nat)
      requires Load(image) == Ok(Loaded(start, found, validSize)) && where == OffsetList(start, found)
      requires start + |found| < U64
      ensures Valid() && Model() == Reopened(image)
      ensures trace == if validSize == |image| then [disk] else [Cut(Disk(image, []), validSize), disk]
    {
      hide Represents, Inv, Image, Load, OffsetList, Numbered, Encodable;
      startIndex, entries, offsets := start, Numbered(start, found), Numbered<nat>(start, where);
      pending, pendingStart, pendingCount := [], 0, 0;
      durableIndex, fileSize := Predecessor(start + |found|), validSize;
      disk := Disk(image, []);
      log := found;
      new;
      LoadExact(image);
      RewrittenInv(start, found);
      RewrittenRepresents(start, found);
      if validSize == |image| {
        assert image[..validSize] == image;
        trace := [disk];
      } else {
        disk := Cut(disk, validSize);
        trace := [disk];
        CutContents(image, validSize);
        disk := Sync(disk);
        trace := trace + [disk];
      }
    }

    method NextSlot() returns (slot: nat)
      ensures slot == NextOf(startIndex, entries)
    {
      if entries == [] {
        return startIndex;
      }
      return entries[|entries| - 1].0 + 1;
    }

    /** Stages the frame of one entry. */
    method QueueEntry(index: nat, e: Entry) returns (r: Result<()>)
      modifies this`offsets, this`pending, this`pendingStart, this`pendingCount
      ensures r == StagingResult(old(Indexes()), index, e)
      ensures r.Ok? ==> Indexes() == Queued(old(Indexes()), index, e)
      ensures r.Err? ==> Indexes() == old(Indexes()).(pendingStart := pendingStart)
      ensures r.Err? ==> pendingStart == if old(pendingCount) == 0 then index else old(pendingStart)
    {
      hide Frame, Put;
      if pendingCount == 0 {
        pendingStart := index;
      } else if index != pendingStart + pendingCount {
        return Err(PendingGap);
      }
      if |e| == 0 || |e| > MAX_ENTRY {
        return Err(EntrySize);
      }
      var frame := Frame(index, e);
      offsets := Put<nat>(offsets, index, fileSize + |pending|);
      pending := pending + frame;
      pendingCount := pendingCount + 1;
      return Ok(());
    }

    /** Writes and syncs the staged frames, whatever they are; for a valid store these are exactly
        the frames after the durable index. */
    method SyncPending()
      modifies this
      ensures disk == if old(pending) == [] then old(disk) else Sync(Write(old(disk), old(pending)))
      ensures entries == old(entries) && startIndex == old(startIndex) && pending == []
      ensures old(Valid()) ==>
                Valid() && Model() == Synced(old(Model())) && trace == old(trace) + SyncPoints(old(Model()))
    {
      hide Represents, Inv, Staged, Contents, Image;
      ghost var s, x, valid := Model(), Indexes(), Valid();
      if valid {
        SyncRepresents(x, s);
        SyncedDisk(s);
      }
      if pending == [] {
        return;
      }
      disk := Write(disk, pending);
      trace := trace + [disk];
      disk := Sync(disk);
      trace := trace + [disk];
      fileSize := fileSize + |pending|;
      durableIndex := Before(pendingStart + pendingCount);
      pending, pendingStart, pendingCount := [], 0, 0;
    }

    /** Enters the entry in the index, then stages its frame. The index is updated before the
        encoder runs, so an entry the encoder refuses leaves the indexes disagreeing. */
    method StageNext(index: nat, e: Entry) returns (r: Result<()>)
      modifies this
      ensures r == StagingResult(old(Indexes()), index, e)
      ensures Indexes() == StagedIndex(old(Indexes()), index, e)
      ensures Model() == old(Model()).(entries := if r.Ok? then old(log) + [e] else old(log)) && trace == old(trace)
    {
      hide Queued, Put, Encodable;
      entries := Put(entries, index, e);
      r := QueueEntry(index, e);
      if r.Ok? {
        log := log + [e];
      }
    }

    /** Appends after the last entry; the entry becomes durable with its batch. */
    method Append(e: Entry) returns (r: Result<nat>)
      requires NextOf(startIndex, entries) + 1 < U64
      modifies this
      ensures var index := old(NextOf(startIndex, entries));
              var staged := StagingResult(old(Indexes()), index, e);
              && r == (if staged.Ok? then Ok(index) else Err(staged.error))
              && Indexes() == StagedIndex(old(Indexes()), index, e)
      ensures startIndex == old(startIndex) && disk == old(disk) && trace == old(trace)
      ensures old(Valid()) ==>
                && r == (if Encodable(e) then Ok(old(startIndex + |log|)) else Err(EntrySize))
                && (Valid() <==> Encodable(e))
                && (!Encodable(e) ==> forall t: Log :: !Represents(Indexes(), t))
                && (Encodable(e) ==> Model() == Step(old(Model()), AppendEntry(e)))
    {
      hide Represents, Inv, StagedIndex, StagingResult, NextOf, Encodable;
      ghost var s, x := Model(), Indexes();
      ghost var valid := Valid();
      var index := NextSlot();
      if valid {
        ShapeOfInv(s);
        AppendsNext(x, s, e, index);
      }
      var staged := StageNext(index, e);
      if staged.Err? {
        return Err(staged.error);
      }
      return Ok(index);
    }

    /** Drops the entries from `index` on, in memory and in the file. */
    method TruncateFrom(index: nat)
      requires Represents(Indexes(), Model()) && Model().Count() == |log|
      requires 1 <= startIndex <= index <= startIndex + |log|
      modifies this
      ensures Represents(Indexes(), Model())
      ensures var kept := old(log)[..index - old(startIndex)];
              Model() == old(Model()).(entries := kept, durable := index - 1,
                                       disk := Cut(old(disk), |Image(old(startIndex), kept)|))
      ensures trace == old(trace) + [disk]
    {
      hide Represents, Image, Get, EraseFrom;
      ghost var size := |Image(startIndex, log[..index - startIndex])|;
      CutRepresents(Indexes(), Model(), index, Cut(disk, size));
      var offset := Get<nat>(offsets, index);
      var truncateAt := match offset case Some(o) => o case None => fileSize;
      disk := Cut(disk, truncateAt);
      trace := trace + [disk];
      fileSize := truncateAt;
      entries := EraseFrom(entries, index);
      offsets := EraseFrom<nat>(offsets, index);
      durableIndex := Predecessor(index);
      log := log[..index - startIndex];
    }

    /** Overwrites from `index` on: syncs what is staged, truncates the file at the entry's
        offset and stages the replacement. The truncation itself is not synced. */
    method WriteEntryAt(index: nat, e: Entry) returns (r: Result<()>)
      requires Valid() && index + 1 < U64
      modifies this
      ensures r == if index < old(startIndex) then Err(OverwriteIndex)
                   else if index > old(startIndex + |log|) then Err(OverwriteGap)
                   else if !Encodable(e) then Err(EntrySize) else Ok(())
      ensures Valid() <==> r != Err(EntrySize)
      ensures r != Err(EntrySize) ==>
                && Model() == Step(old(Model()), WriteAt(index, e))
                && trace == old(trace) + Points(old(Model()), WriteAt(index, e))
    {
      hide Represents, Image, Staged, Inv, Encodable, Contents, StagedIndex, StagingResult, NextOf, Numbered;
      ghost var s := Model();
      ShapeOfInv(s);
      if index < startIndex {
        return Err(OverwriteIndex);
      }
      RepresentsEntries(Indexes(), s);
      NextOfNumbered(startIndex, log);
      var next := NextSlot();
      if index > next {
        return Err(OverwriteGap);
      }
      SyncPending();
      TruncateFrom(index);
      StagingAgrees(Indexes(), Model(), e);
      r := StageNext(index, e);
      if r.Ok? {
        StepInv(s, WriteAt(index, e));
      }
    }

    method EndOfAppendBatch(first: nat, count: nat) returns (r: Result<()>)
      requires Valid() && first + count < U64
      modifies this
      ensures Valid()
      ensures r == if Accepts(old(Model()), EndBatch(first, count)) then Ok(()) else Err(BatchRange)
      ensures Model() == Step(old(Model()), EndBatch(first, count))
      ensures trace == old(trace) + Points(old(Model()), EndBatch(first, count))
      ensures startIndex == old(startIndex) && log == old(log)
      ensures r.Ok? && count > 0 ==> durableIndex == startIndex + |log| - 1 && AllDurable(Model())
    {
      hide Represents, Inv, Staged, Contents, AllDurable;
      ghost var s := Model();
      ShapeOfInv(s);
      SyncHolds(s, EndBatch(first, count));
      if Accepts(s, EndBatch(first, count)) && count > 0 {
        BatchDurable(s, first, count);
        DurableIndex(Step(s, EndBatch(first, count)));
      }
      RepresentsEntries(Indexes(), Model());
      if count == 0 || pendingCount == 0 {
        return Ok(());
      }
      if pendingStart < first || pendingStart + pendingCount > first + count {
        return Err(BatchRange);
      }
      SyncPending();
      return Ok(());
    }

    method FlushAll()
      requires Valid()
      modifies this
      ensures Valid() && Model() == Step(old(Model()), Flush)
      ensures trace == old(trace) + Points(old(Model()), Flush)
      ensures startIndex == old(startIndex) && log == old(log)
      ensures durableIndex == startIndex + |log| - 1 && AllDurable(Model())
    {
      hide Represents, Inv, Staged, Contents, Image, AllDurable;
      ShapeOfInv(Model());
      SyncHolds(Model(), Flush);
      FlushDurable(Model());
      DurableIndex(Step(Model(), Flush));
      StepInv(Model(), Flush);
      SyncPending();
      disk := Sync(disk);
      trace := trace + [disk];
      SameRepresents(Indexes(), Model(), old(Model()));
    }

    /** Writes the whole index to a new file and replaces the old one atomically, unless an entry
        cannot be encoded. For a contiguous index the result is the rewritten log. */
    method Rewrite() returns (r: Result<()>)
      requires Ascending(entries)
      modifies this
      ensures r == if AllPairsEncodable(old(entries)) then Ok(()) else Err(EntrySize)
      ensures startIndex == old(startIndex) && entries == old(entries)
      ensures r.Err? ==> disk == old(disk) && trace == old(trace)
      ensures r.Ok? ==> disk == Replace(EncodeAll(startIndex, entries)) && trace == old(trace) + [disk]
      ensures r.Ok? ==> offsets == OffsetsFrom(entries, HEADER_SIZE) && fileSize == |EncodeAll(startIndex, entries)|
      ensures r.Ok? ==> pending == [] && pendingCount == 0 && durableIndex == Before(NextOf(startIndex, entries))
      ensures old(Contiguous()) ==> r.Ok? && Valid() && Model() == Rewritten(old(startIndex), old(log))
    {
      hide Inv, Represents, OffsetsFrom, Numbered, AllEncodable, EncodeAll, NextOf;
      hide AllPairsEncodable, Ascending, Rewritten;
      if Contiguous() {
        RewrittenIndex(startIndex, log);
      }
      pending, pendingStart, pendingCount := [], 0, 0;
      var bytes := EncodeEntries(startIndex, entries);
      if bytes.Err? {
        return Err(bytes.error);
      }
      disk := Replace(bytes.value);
      trace := trace + [disk];
      offsets := RebuildOffsets(entries);
      fileSize := |bytes.value|;
      var next := NextSlot();
      durableIndex := Before(next);
      return Ok(());
    }

    /** The entry index is the log, from a positive start and with entries the encoder accepts. */
    ghost predicate Contiguous()
      reads this
    {
      entries == Numbered(startIndex, log) && startIndex >= 1 && startIndex + |log| < U64 && AllEncodable(log)
    }

    method CompactThrough(last: nat)
      requires Valid() && Legal(Model(), Compact(last))
      modifies this
      ensures Valid() && Model() == Step(old(Model()), Compact(last))
      ensures trace == old(trace) + Points(old(Model()), Compact(last))
    {
      hide Represents, Inv, Image, Numbered, AllEncodable, Staged, EraseThrough, Contents;
      hide EncodeAll, OffsetsFrom, NextOf, AllPairsEncodable, Ascending, Rewritten;
      ghost var s := Model();
      ghost var n := Below(startIndex, |log|, last + 1);
      ShapeOfInv(s);
      CompactShape(s, last);
      SyncPending();
      RepresentsEntries(Indexes(), Model());
      EraseThroughNumbered(startIndex, log, last);
      entries := EraseThrough(entries, last);
      NumberedEmpty<Entry>(startIndex + n, last + 1);
      if startIndex <= last {
        startIndex := last + 1;
      }
      log := log[n..];
      assert Contiguous();
      NumberedPairs(startIndex, log);
      var r := Rewrite();
    }

    /** Replaces everything from `index` on by a pack received from the leader. The entries are in
        memory before the encoder runs; a pack that leaves a gap, or starts at index 0, is written
        and makes the file unloadable. */
    method ApplyPackAt(index: nat, pack: seq<Entry>) returns (r: Result<()>)
      requires Valid() && index + |pack| < U64
      modifies this
      ensures r == if AllEncodable(pack) then Ok(()) else Err(EntrySize)
      ensures entries == PackedIndex(old(Model()), index, pack)
      ensures r.Err? ==> disk == Synced(old(Model())).disk
      ensures r.Ok? ==> disk == Replace(EncodeAll(Packed(old(Model()), index, pack).0, entries))
      ensures r.Ok? && GapFree(old(Model()), index, pack) ==>
                && Valid() && Model() == Step(old(Model()), ApplyPack(index, pack))
                && trace == old(trace) + Points(old(Model()), ApplyPack(index, pack))
      ensures r.Ok? && !GapFree(old(Model()), index, pack) ==> Load(Contents(disk)).Err?
    {
      hide Represents, Inv, Image, Numbered, AllEncodable, Staged, EraseFrom, Contents;
      hide EncodeAll, Load, OffsetsFrom, NextOf, PackedIndex, AllPairsEncodable, Ascending, Packed, Rewritten, GapFree;
      ghost var s := Model();
      ShapeOfInv(s);
      SyncPending();
      RepresentsEntries(Indexes(), Model());
      PackedPairs(s, index, pack);
      if GapFree(s, index, pack) && AllEncodable(pack) {
        PackedContiguous(s, index, pack);
      }
      entries := EraseFrom(entries, index);
      entries := PlacePack(entries, index, pack);
      startIndex := if entries == [] then index else entries[0].0;
      log := Packed(s, index, pack).1;
      r := Rewrite();
      if r.Ok? && !GapFree(s, index, pack) {
        GappedUnloadable(s, index, pack);
      }
    }
  }

  lemma PackedPairs(s: Log, index: nat, pack: seq<Entry>)
    requires Shape(s) && index + |pack| < U64
    ensures var kept := EraseFrom(Numbered(s.start, s.entries), index);
            && kept + Numbered(index, pack) == PackedIndex(s, index, pack)
            && forall i :: 0 <= i < |kept| ==> kept[i].0 < index
    ensures var m := PackedIndex(s, index, pack);
            && Ascending(m) && (AllPairsEncodable(m) <==> AllEncodable(pack))
            && Packed(s, index, pack).0 == (if m == [] then index else m[0].0)
  {
    hide Numbered, EraseFrom, AllEncodable, AllPairsEncodable, Ascending;
    EraseFromNumbered(s.start, s.entries, index);
    var kept := s.entries[..Below(s.start, |s.entries|, index)];
    assert AllEncodable(kept) by { KeptEncodable(s, |kept|); }
    PairsOf(s.start, kept);
    PairsOf(index, pack);
    NumberedPairs(s.start, kept);
    NumberedPairs(index, pack);
    JoinedPairs(Numbered(s.start, kept), Numbered(index, pack));
  }

  lemma KeptEncodable(s: Log, n: nat)
    requires Shape(s) && n <= |s.entries|
    ensures AllEncodable(s.entries[..n])
  {
    hide Encodable;
  }

  lemma NumberedPairs(start: nat, es: seq<Entry>)
    ensures Ascending(Numbered(start, es)) && (AllPairsEncodable(Numbered(start, es)) <==> AllEncodable(es))
  {
    hide Numbered, Encodable;
    PairsOf(start, es);
    var m := Numbered(start, es);
    assert forall i :: 0 <= i < |es| ==> m[i].1 == es[i];
    if AllPairsEncodable(m) {
      forall i | 0 <= i < |es|
        ensures Encodable(es[i])
      {
        assert Encodable(m[i].1);
      }
    }
  }

  lemma JoinedPairs(a: SortedMap<Entry>, b: SortedMap<Entry>)
    requires Ascending(a) && Ascending(b) && forall i, j :: 0 <= i < |a| && 0 <= j < |b| ==> a[i].0 < b[j].0
    ensures Ascending(a + b) && (AllPairsEncodable(a + b) <==> AllPairsEncodable(a) && AllPairsEncodable(b))
  {
    hide Encodable;
    var m := a + b;
    if AllPairsEncodable(m) {
      forall i | 0 <= i < |a|
        ensures Encodable(a[i].1)
      {
        assert Encodable(m[i].1);
      }
      forall i | 0 <= i < |b|
        ensures Encodable(b[i].1)
      {
        assert Encodable(m[|a| + i].1);
      }
    }
  }

  lemma PairsOf(start: nat, es: seq<Entry>)
    ensures forall i :: 0 <= i < |es| ==> Numbered(start, es)[i] == (start + i, es[i])
  {
    hide Numbered;
    forall i | 0 <= i < |es|
      ensures Numbered(start, es)[i] == (start + i, es[i])
    {
      NumberedAt(start, es, i);
    }
  }

  /** A gap-free pack leaves a contiguous index. */
  lemma PackedContiguous(s: Log, index: nat, pack: seq<Entry>)
    requires Shape(s) && Legal(s, ApplyPack(index, pack))
    ensures var (start, entries) := Packed(s, index, pack);
            && PackedIndex(s, index, pack) == Numbered(start, entries)
            && start >= 1 && start + |entries| < U64 && AllEncodable(entries)
  {
    hide Numbered, Encodable;
    PackShape(s, index, pack);
    var (start, entries) := Packed(s, index, pack);
    var n := Below(s.start, |s.entries|, index);
    PairsOf(s.start, s.entries[..n]);
    PairsOf(index, pack);
    PairsOf(start, entries);
  }

  lemma GappedUnloadable(s: Log, index: nat, pack: seq<Entry>)
    requires Shape(s) && AllEncodable(pack) && index + |pack| < U64 && !GapFree(s, index, pack)
    ensures Load(Contents(Replace(EncodeAll(Packed(s, index, pack).0, PackedIndex(s, index, pack))))).Err?
  {
    hide EncodeAll, GapFree, PackedIndex, Packed, Scan, LoadHeader;
    var file := EncodeAll(Packed(s, index, pack).0, PackedIndex(s, index, pack));
    if |file| <= MAX_FILE {
      ApplyPackLoadsIff(s, index, pack);
    }
  }

  lemma DurableIndex(s: Log)
    requires AllDurable(s)
    ensures s.durable == s.Next() - 1
  {
  }

  // ---- An append that is refused ----

  /** A synced file with one frame after the log whose index skips a slot does not load. */
  lemma SkippedSlotUnloadable(s: Log, e: Entry)
    requires Inv(s) && s.Count() == |s.entries| && Encodable(e) && s.Next() + 1 < U64
    ensures Load(Contents(Sync(Write(s.disk, Frame(s.Next() + 1, e))))).Err?
  {
    hide Image, Load, Frame, Encodable;
    SyncedDisk(s);
    var frame := Frame(s.Next() + 1, e);
    var d := Write(Disk(Image(s.start, s.entries), []), frame);
    ContentsOfPair(Image(s.start, s.entries), Append(frame), Append(frame));
    assert d.ops == [Append(frame)];
    assert frame + [] == frame;
    GapRejected(s.start, s.entries, s.Next() + 1, e, []);
  }

  /** The second append goes to the slot after the refused entry, which is in the index only. */
  lemma AfterRefusal(x: Index, s: Log, big: Entry, e: Entry)
    requires Represents(x, s) && !Encodable(big) && Encodable(e)
    ensures var y := StagedIndex(x, s.Next(), big);
            && NextOf(s.start, x.entries) == s.Next() && NextOf(s.start, y.entries) == s.Next() + 1
            && (x.pendingCount > 0 ==> StagingResult(y, s.Next() + 1, e) == Err(PendingGap))
            && (x.pendingCount == 0 ==>
                  && s.Count() == |s.entries| && StagingResult(y, s.Next() + 1, e).Ok?
                  && StagedIndex(y, s.Next() + 1, e).pending == Frame(s.Next() + 1, e))
  {
    hide Represents, Put, Encodable, Frame, Numbered;
    RepresentsEntries(x, s);
    NextOfNumbered(s.start, s.entries);
    StagingAgrees(x, s, big);
    SyncRepresents(x, s);
    var y := StagedIndex(x, s.Next(), big);
    assert y.entries[|y.entries| - 1] == (s.Next(), big);
    assert x.pendingCount == 0 ==> x.pending == [];
  }

  /** From a valid store: an append the encoder refuses, then one it accepts, then a sync. With
      nothing staged before, the file can no longer be loaded; with a batch staged, the second
      append fails. */
  method AppendAfterRefusal(store: FileLogStore, big: Entry, e: Entry) returns (first: Result<nat>, second: Result<nat>)
    requires store.Valid() && !Encodable(big) && Encodable(e) && store.startIndex + |store.log| + 2 < U64
    modifies store
    ensures first == Err(EntrySize)
    ensures old(store.pendingCount) > 0 ==> second == Err(PendingGap)
    ensures old(store.pendingCount) == 0 ==> second.Ok? && Load(Contents(store.disk)).Err?
  {
    hide Represents, Inv, Encodable, Contents, Load, Frame, StagedIndex, StagingResult, NextOf;
    ghost var s, x := store.Model(), store.Indexes();
    AfterRefusal(x, s, big, e);
    first := store.Append(big);
    second := store.Append(e);
    store.SyncPending();
    if x.pendingCount == 0 {
      FrameNotEmpty(s.Next() + 1, e);
      SkippedSlotUnloadable(s, e);
    }
  }

  lemma FrameNotEmpty(index: nat, e: Entry)
    ensures Frame(index, e) != []
  {
  }

  // ---- Opening an existing file ----

  /** `load` of a version-2 file: size and magic, the header, the frames, and the truncation of a
      torn tail. */
  method Open(image: Bytes) returns (r: Result<FileLogStore>)
    requires Load(image).Ok? ==> Load(image).value.start + |Load(image).value.entries| < U64
    ensures r.Err? ==> Load(image) == Err(r.error)
    ensures r.Ok? ==>
              && Load(image).Ok? && fresh(r.value) && r.value.Valid() && r.value.Model() == Reopened(image)
  {
    hide Scan, Unsigned, Fnv1a64, OffsetList, Image, Reopened;
    if |image| > MAX_FILE {
      return Err(FileTooLarge);
    }
    if |image| < 4 || image[..4] != WAL_MAGIC {
      return Err(NotWal);
    }
    if |image| < HEADER_SIZE {
      return Err(WalHeaderTruncated);
    }
    if Unsigned(image[4..6]) != 2 || Unsigned(image[6..8]) != 0 {
      return Err(WalVersion);
    }
    var start := Unsigned(image[8..16]);
    var sum := Checksum(image[..16]);
    if start == 0 || Unsigned(image[16..24]) != sum {
      return Err(WalHeader);
    }
    var frames :- LoadFrames(image, start);
    var store := new FileLogStore.Restore(image, start, frames.0, frames.1, frames.2);
    return Ok(store);
  }
}
