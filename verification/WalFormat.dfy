/** The byte format of the write-ahead log: header, frames, and what loading an image gives.
    A log entry is its serialized bytes. */
module WalFormat {
  import opened Bytes
  import opened BinaryCodec
  import opened Fnv

  type Entry = Bytes

  const HEADER_SIZE := 24
  const FRAME_OVERHEAD := 28
  const MAX_ENTRY := 64 * 1024 * 1024
  const MAX_FILE := 4 * 1024 * 1024 * 1024
  const WAL_MAGIC: Bytes := Ascii("SKW2")

  /** The sizes the encoder accepts. */
  predicate Encodable(e: Entry) {
    0 < |e| <= MAX_ENTRY
  }

  ghost predicate AllEncodable(es: seq<Entry>) {
    forall i :: 0 <= i < |es| ==> Encodable(es[i])
  }

  // ---- Encoding ----

  function HeaderPrefix(start: nat): (b: Bytes)
    ensures |b| == 16
  {
    WAL_MAGIC + BigEndian(2, 2) + BigEndian(0, 2) + BigEndian(start, 8)
  }

  function Header(start: nat): (b: Bytes)
    ensures |b| == HEADER_SIZE
  {
    HeaderPrefix(start) + BigEndian(Fnv1a64(HeaderPrefix(start)), 8)
  }

  function Body(index: nat, e: Entry): (b: Bytes)
    ensures |b| == 16 + |e|
  {
    BigEndian(1, 2) + BigEndian(0, 2) + BigEndian(index, 8) + BigEndian(|e|, 4) + e
  }

  function Frame(index: nat, e: Entry): (b: Bytes)
    ensures |b| == FRAME_OVERHEAD + |e|
  {
    BigEndian(16 + |e|, 4) + Body(index, e) + BigEndian(Fnv1a64(Body(index, e)), 8)
  }

  function Frames(start: nat, es: seq<Entry>): Bytes
    decreases es
  {
    if es == [] then [] else Frame(start, es[0]) + Frames(start + 1, es[1..])
  }

  function Image(start: nat, es: seq<Entry>): Bytes {
    Header(start) + Frames(start, es)
  }

  lemma {:induction false} FramesConcat(start: nat, a: seq<Entry>, b: seq<Entry>)
    ensures Frames(start, a + b) == Frames(start, a) + Frames(start + |a|, b)
    decreases a
  {
    hide Frame;
    if a == [] {
      assert a + b == b;
    } else {
      assert (a + b)[1..] == a[1..] + b;
      FramesConcat(start + 1, a[1..], b);
    }
  }

  lemma FramesSnoc(start: nat, es: seq<Entry>, e: Entry)
    ensures Frames(start, es + [e]) == Frames(start, es) + Frame(start + |es|, e)
  {
    FramesConcat(start, es, [e]);
    assert Frames(start + |es|, [e]) == Frame(start + |es|, e);
  }

  /** An image with fewer entries is a byte prefix of the image. */
  lemma ImagePrefix(start: nat, es: seq<Entry>, n: nat)
    requires n <= |es|
    ensures Image(start, es) == Image(start, es[..n]) + Frames(start + n, es[n..])
    ensures |Image(start, es[..n])| <= |Image(start, es)|
    ensures Image(start, es)[..|Image(start, es[..n])|] == Image(start, es[..n])
  {
    hide Header, Frames;
    FramesConcat(start, es[..n], es[n..]);
    assert es[..n] + es[n..] == es;
    var a, b := Image(start, es[..n]), Frames(start + n, es[n..]);
    assert Image(start, es) == a + b;
    Parts2(a, b);
  }

  // ---- Loading ----

  datatype Scanned = Scanned(entries: seq<Entry>, size: nat)
  datatype Loaded = Loaded(start: nat, entries: seq<Entry>, size: nat)

  function DecodeBody(body: Bytes, expected: nat): Result<Entry> {
    var (version, s1) :- TakeUnsigned(body, 2);
    var (reserved, s2) :- TakeUnsigned(s1, 2);
    if version != 1 || reserved != 0 then Err(WalEntryVersion) else
    var (index, s3) :- TakeUnsigned(s2, 8);
    var (size, s4) :- TakeUnsigned(s3, 4);
    if index != expected || size == 0 || size > MAX_ENTRY then Err(WalSequence) else
    var (entry, rest) :- TakeBytes(s4, size);
    if rest != [] then Err(TrailingBytes) else Ok(entry)
  }

  /** Does `s` begin with a frame whose declared length is plausible and fits? */
  predicate FrameFits(s: Bytes) {
    && |s| >= 4
    && var size := Unsigned(s[..4]);
       16 <= size <= MAX_ENTRY + 32 && |s| - 4 >= size + 8
  }

  /** The frame loop over the bytes after the header: the entries of the leading frames and
      the number of bytes they take. An incomplete or damaged last frame ends the loop; a
      damaged frame before the end of the file is an error. */
  function Scan(s: Bytes, expected: nat): Result<Scanned> {
    if !FrameFits(s) then Ok(Scanned([], 0)) else
    var size := Unsigned(s[..4]);
    var body := s[4..4 + size];
    var stored := Unsigned(s[4 + size..12 + size]);
    if stored != Fnv1a64(body) then
      if |s| != 12 + size then Err(WalChecksum) else Ok(Scanned([], 0))
    else
      var entry :- DecodeBody(body, expected);
      var rest :- Scan(s[12 + size..], expected + 1);
      Ok(Scanned([entry] + rest.entries, 12 + size + rest.size))
  }

  function LoadHeader(bytes: Bytes): Result<nat> {
    if |bytes| < HEADER_SIZE then Err(WalHeaderTruncated) else
    if Unsigned(bytes[4..6]) != 2 || Unsigned(bytes[6..8]) != 0 then Err(WalVersion) else
    var start := Unsigned(bytes[8..16]);
    if start == 0 || Unsigned(bytes[16..24]) != Fnv1a64(bytes[..16]) then Err(WalHeader)
    else Ok(start)
  }

  /** Loading an existing version-2 file. */
  function Load(bytes: Bytes): Result<Loaded> {
    if |bytes| > MAX_FILE then Err(FileTooLarge) else
    if |bytes| < 4 || bytes[..4] != WAL_MAGIC then Err(NotWal) else
    var start :- LoadHeader(bytes);
    var found :- Scan(bytes[HEADER_SIZE..], start);
    Ok(Loaded(start, found.entries, HEADER_SIZE + found.size))
  }

  // ---- Round trip of one frame ----

  lemma DecodeBodyOfBody(index: nat, e: Entry, expected: nat)
    requires Encodable(e) && index < U64
    ensures index == expected ==> DecodeBody(Body(index, e), expected) == Ok(e)
    ensures index != expected ==> DecodeBody(Body(index, e), expected).Err?
  {
    Widths();
    var s4 := e;
    var s3 := BigEndian(|e|, 4) + s4;
    var s2 := BigEndian(index, 8) + s3;
    var s1 := BigEndian(0, 2) + s2;
    assert Body(index, e) == BigEndian(1, 2) + s1;
    TakeUnsignedOfBigEndian(1, 2, s1);
    TakeUnsignedOfBigEndian(0, 2, s2);
    TakeUnsignedOfBigEndian(index, 8, s3);
    TakeUnsignedOfBigEndian(|e|, 4, s4);
    assert e + [] == e;
    TakeBytesOfConcat(e, []);
  }

  /** The three fields of a frame at the head of a byte string, when the length is intact. */
  lemma FrameFields(e: Entry, body: Bytes, sum: Bytes, tail: Bytes)
    requires Encodable(e) && |body| == 16 + |e| && |sum| == 8
    ensures var s := BigEndian(16 + |e|, 4) + body + sum + tail;
            && FrameFits(s) && Unsigned(s[..4]) == 16 + |e|
            && s[4..20 + |e|] == body && s[20 + |e|..28 + |e|] == sum && s[28 + |e|..] == tail
  {
    Widths();
    UnsignedOfBigEndian(16 + |e|, 4);
    Parts4(BigEndian(16 + |e|, 4), body, sum, tail);
  }

  lemma ScanOne(index: nat, e: Entry, tail: Bytes)
    requires Encodable(e) && index < U64
    ensures var rest := Scan(tail, index + 1);
            Scan(Frame(index, e) + tail, index) ==
            if rest.Err? then rest
            else Ok(Scanned([e] + rest.value.entries, FRAME_OVERHEAD + |e| + rest.value.size))
  {
    hide Fnv1a64, Body, DecodeBody, BigEndian, Unsigned;
    var body := Body(index, e);
    Widths();
    UnsignedOfBigEndian(Fnv1a64(body), 8);
    FrameFields(e, body, BigEndian(Fnv1a64(body), 8), tail);
    DecodeBodyOfBody(index, e, index);
  }

  /** Whole frames at the head are returned; what follows them decides the rest. */
  lemma {:induction false} ScanFrames(start: nat, es: seq<Entry>, tail: Bytes)
    requires AllEncodable(es) && start + |es| <= U64
    ensures var rest := Scan(tail, start + |es|);
            Scan(Frames(start, es) + tail, start) ==
            if rest.Err? then rest
            else Ok(Scanned(es + rest.value.entries, |Frames(start, es)| + rest.value.size))
    decreases es
  {
    hide Frame, Scan;
    if es == [] {
      assert Frames(start, es) + tail == tail;
      var rest := Scan(tail, start);
      if rest.Ok? {
        assert es + rest.value.entries == rest.value.entries;
      }
    } else {
      ScanOne(start, es[0], Frames(start + 1, es[1..]) + tail);
      ScanFrames(start + 1, es[1..], tail);
      assert Frames(start, es) + tail == Frame(start, es[0]) + (Frames(start + 1, es[1..]) + tail);
      var rest := Scan(tail, start + |es|);
      if rest.Ok? {
        assert [es[0]] + (es[1..] + rest.value.entries) == es + rest.value.entries;
      }
    }
  }

  /** A frame cut short anywhere ends the scan. */
  lemma ScanTorn(index: nat, e: Entry, cut: nat, expected: nat)
    requires Encodable(e) && cut < FRAME_OVERHEAD + |e|
    ensures Scan(Frame(index, e)[..cut], expected) == Ok(Scanned([], 0))
  {
    var torn := Frame(index, e)[..cut];
    if cut >= 4 {
      Widths();
      UnsignedOfBigEndian(16 + |e|, 4);
      assert torn[..4] == BigEndian(16 + |e|, 4);
    }
  }

  // ---- Loading images ----

  lemma LoadHeaderOfHeader(start: nat, rest: Bytes)
    requires 0 < start < U64
    ensures LoadHeader(Header(start) + rest) == Ok(start)
    ensures (Header(start) + rest)[..4] == WAL_MAGIC
    ensures (Header(start) + rest)[HEADER_SIZE..] == rest
  {
    hide Fnv1a64, BigEndian, Unsigned;
    Widths();
    var b := Header(start) + rest;
    UnsignedOfBigEndian(2, 2);
    UnsignedOfBigEndian(0, 2);
    UnsignedOfBigEndian(start, 8);
    UnsignedOfBigEndian(Fnv1a64(HeaderPrefix(start)), 8);
    assert b[..4] == WAL_MAGIC;
    assert b[4..6] == BigEndian(2, 2);
    assert b[6..8] == BigEndian(0, 2);
    assert b[8..16] == BigEndian(start, 8);
    assert b[..16] == HeaderPrefix(start);
    assert b[16..24] == BigEndian(Fnv1a64(HeaderPrefix(start)), 8);
  }

  /** A log image followed by any tail loads as its entries followed by whatever the tail scans to. */
  lemma LoadImage(start: nat, es: seq<Entry>, tail: Bytes)
    requires start > 0 && start + |es| < U64 && AllEncodable(es)
    requires |Image(start, es) + tail| <= MAX_FILE
    ensures var rest := Scan(tail, start + |es|);
            Load(Image(start, es) + tail) ==
            if rest.Err? then Err(rest.error)
            else Ok(Loaded(start, es + rest.value.entries, |Image(start, es)| + rest.value.size))
  {
    hide Header, Frames, Scan, LoadHeader;
    var frames := Frames(start, es) + tail;
    assert Image(start, es) + tail == Header(start) + frames;
    LoadHeaderOfHeader(start, frames);
    ScanFrames(start, es, tail);
  }

  /** Without a tail: a log image loads as exactly its entries, if and only if it is within
      the 4 GiB a load reads. The writer has no such limit. */
  lemma LoadWholeImage(start: nat, es: seq<Entry>)
    requires start > 0 && start + |es| < U64 && AllEncodable(es)
    ensures |Image(start, es)| <= MAX_FILE ==> Load(Image(start, es)) == Ok(Loaded(start, es, |Image(start, es)|))
    ensures |Image(start, es)| > MAX_FILE ==> Load(Image(start, es)).Err?
  {
    hide Header, Frames, LoadHeader;
    assert Image(start, es) + [] == Image(start, es);
    assert es + [] == es;
    if |Image(start, es)| <= MAX_FILE {
      LoadImage(start, es, []);
    }
  }

  // ---- Torn tails ----

  /** How many leading frames fit completely into the first `cut` bytes of the frames. */
  function WholeFrames(es: seq<Entry>, cut: nat): (n: nat)
    ensures n <= |es|
  {
    if es == [] || cut < FRAME_OVERHEAD + |es[0]| then 0
    else 1 + WholeFrames(es[1..], cut - FRAME_OVERHEAD - |es[0]|)
  }

  lemma {:induction false} WholeFramesExact(start: nat, es: seq<Entry>, cut: nat)
    ensures var n := WholeFrames(es, cut);
            && |Frames(start, es[..n])| <= cut
            && (n < |es| ==> cut < |Frames(start, es[..n + 1])|)
    decreases es
  {
    hide Frame;
    var n := WholeFrames(es, cut);
    if n == 0 {
      if es != [] {
        assert Frames(start, es[..1]) == Frame(start, es[0]) + Frames(start + 1, es[..1][1..]);
      }
    } else {
      WholeFramesExact(start + 1, es[1..], cut - FRAME_OVERHEAD - |es[0]|);
      assert es[..n][1..] == es[1..][..n - 1];
      if n < |es| {
        assert es[..n + 1][1..] == es[1..][..n];
      }
    }
  }

  lemma ScanNothing(expected: nat)
    ensures Scan([], expected) == Ok(Scanned([], 0))
  {
  }

  lemma {:induction false} ScanCut(start: nat, es: seq<Entry>, cut: nat)
    requires AllEncodable(es) && start + |es| <= U64
    requires cut <= |Frames(start, es)|
    ensures var n := WholeFrames(es, cut);
            Scan(Frames(start, es)[..cut], start) == Ok(Scanned(es[..n], |Frames(start, es[..n])|))
    decreases es
  {
    hide Frame, Scan;
    var n := WholeFrames(es, cut);
    if es == [] {
      ScanNothing(start);
    } else if n == 0 {
      ScanTorn(start, es[0], cut, start);
      assert Frames(start, es)[..cut] == Frame(start, es[0])[..cut];
    } else {
      var size := FRAME_OVERHEAD + |es[0]|;
      ScanCut(start + 1, es[1..], cut - size);
      assert Frames(start, es)[..cut] == Frame(start, es[0]) + Frames(start + 1, es[1..])[..cut - size];
      ScanOne(start, es[0], Frames(start + 1, es[1..])[..cut - size]);
      assert es[..n][1..] == es[1..][..n - 1];
      assert [es[0]] + es[1..][..n - 1] == es[..n];
    }
  }

  /** Torn-tail recovery: an image cut at any byte at or after the header loads as exactly the
      entries whose frames are complete, is truncated to their end, and loads unchanged again. */
  lemma TornTail(start: nat, es: seq<Entry>, cut: nat)
    requires start > 0 && start + |es| < U64 && AllEncodable(es)
    requires HEADER_SIZE <= cut <= |Image(start, es)| && cut <= MAX_FILE
    ensures var n := WholeFrames(es, cut - HEADER_SIZE);
            var size := |Image(start, es[..n])|;
            && size <= cut && (n < |es| ==> cut < |Image(start, es[..n + 1])|)
            && Load(Image(start, es)[..cut]) == Ok(Loaded(start, es[..n], size))
            && Load(Image(start, es)[..cut][..size]) == Ok(Loaded(start, es[..n], size))
  {
    hide Header, Frames, Scan, LoadHeader, WholeFrames;
    var k := cut - HEADER_SIZE;
    var n := WholeFrames(es, k);
    WholeFramesExact(start, es, k);
    ScanCut(start, es, k);
    var torn := Frames(start, es)[..k];
    assert Image(start, es)[..cut] == Header(start) + torn;
    LoadHeaderOfHeader(start, torn);
    ImagePrefix(start, es, n);
    LoadWholeImage(start, es[..n]);
    assert Image(start, es)[..cut][..|Image(start, es[..n])|] == Image(start, es)[..|Image(start, es[..n])|];
  }

  // ---- Corruption and gaps ----

  /** Changing one byte of the body or checksum of frame `j` (not of its length prefix, which
      no checksum covers): load drops that frame if it ends the file and fails if it does not. */
  lemma FrameCorruption(start: nat, es: seq<Entry>, j: nat, corrupt: Bytes, k: nat)
    requires start > 0 && start + |es| < U64 && AllEncodable(es) && j < |es|
    requires OneByteChanged(Frame(start + j, es[j]), corrupt, k) && k >= 4
    requires |Image(start, es)| <= MAX_FILE
    ensures var image := Image(start, es[..j]) + corrupt + Frames(start + j + 1, es[j + 1..]);
            && |image| == |Image(start, es)|
            && (j == |es| - 1 ==> Load(image) == Ok(Loaded(start, es[..j], |Image(start, es[..j])|)))
            && (j < |es| - 1 ==> Load(image).Err?)
  {
    hide Header, Frame, Scan, Load;
    var e := es[j];
    var rest := Frames(start + j + 1, es[j + 1..]);
    ImagePrefix(start, es, j);
    assert es[j..][1..] == es[j + 1..];
    assert Frames(start + j, es[j..]) == Frame(start + j, e) + rest;
    CorruptFrameScan(start + j, e, corrupt, k, rest);
    assert Image(start, es[..j]) + corrupt + rest == Image(start, es[..j]) + (corrupt + rest);
    LoadImage(start, es[..j], corrupt + rest);
    if j < |es| - 1 {
      assert es[j + 1..] != [];
    } else {
      assert es[..j] + [] == es[..j];
    }
  }

  lemma CorruptFrameScan(index: nat, e: Entry, corrupt: Bytes, k: nat, rest: Bytes)
    requires Encodable(e) && OneByteChanged(Frame(index, e), corrupt, k) && k >= 4
    ensures rest == [] ==> Scan(corrupt + rest, index) == Ok(Scanned([], 0))
    ensures rest != [] ==> Scan(corrupt + rest, index).Err?
  {
    hide Fnv1a64, Body, DecodeBody, BigEndian, Unsigned;
    var good := Frame(index, e);
    Parts4(BigEndian(16 + |e|, 4), Body(index, e), BigEndian(Fnv1a64(Body(index, e)), 8), []);
    var body, sum := corrupt[4..20 + |e|], corrupt[20 + |e|..];
    assert good[4..20 + |e|] == Body(index, e);
    assert good[20 + |e|..] == BigEndian(Fnv1a64(Body(index, e)), 8);
    assert corrupt[..4] == good[..4] == BigEndian(16 + |e|, 4);
    assert corrupt + rest == BigEndian(16 + |e|, 4) + body + sum + rest;
    FrameFields(e, body, sum, rest);
    Widths();
    UnsignedOfBigEndian(Fnv1a64(Body(index, e)), 8);
    assert Unsigned(sum) != Fnv1a64(body) by {
      if k < 20 + |e| {
        assert body == Body(index, e)[k - 4 := corrupt[k]];
        SingleByteDetected(Body(index, e), body, k - 4);
        assert sum == good[20 + |e|..];
      } else {
        assert body == Body(index, e);
        assert sum[k - 20 - |e|] != good[20 + |e|..][k - 20 - |e|];
        BigEndianOfUnsigned(sum);
      }
    }
  }

  /** A frame whose index does not continue the log makes the whole file unloadable, whatever
      follows it: a gap in memory must never reach the disk. */
  lemma GapRejected(start: nat, es: seq<Entry>, index: nat, e: Entry, tail: Bytes)
    requires start > 0 && start + |es| < U64 && AllEncodable(es) && Encodable(e)
    requires index < U64 && index != start + |es|
    ensures Load(Image(start, es) + (Frame(index, e) + tail)).Err?
  {
    var body := Body(index, e);
    Widths();
    UnsignedOfBigEndian(Fnv1a64(body), 8);
    FrameFields(e, body, BigEndian(Fnv1a64(body), 8), tail);
    DecodeBodyOfBody(index, e, start + |es|);
    assert Scan(Frame(index, e) + tail, start + |es|).Err?;
    if |Image(start, es) + (Frame(index, e) + tail)| <= MAX_FILE {
      LoadImage(start, es, Frame(index, e) + tail);
    }
  }

  // ---- What load accepts ----

  lemma DecodeBodyInverse(body: Bytes, expected: nat)
    requires DecodeBody(body, expected).Ok?
    ensures var e := DecodeBody(body, expected).value;
            Encodable(e) && body == Body(expected, e) && expected < U64
  {
    hide BigEndian, Unsigned;
    Widths();
    TakeUnsignedInverse(body, 2);
    var s1 := body[2..];
    TakeUnsignedInverse(s1, 2);
    var s2 := s1[2..];
    TakeUnsignedInverse(s2, 8);
    var s3 := s2[8..];
    TakeUnsignedInverse(s3, 4);
    var (size, s4) := TakeUnsigned(s3, 4).value;
    TakeBytesInverse(s4, size);
    var e := DecodeBody(body, expected).value;
    assert s4 == e;
    assert body == BigEndian(1, 2) + (BigEndian(0, 2) + (BigEndian(expected, 8) + (BigEndian(|e|, 4) + e)));
  }

  /** A whole frame whose checksum and body are accepted is the frame of its entry. */
  lemma FrameInverse(s: Bytes, size: nat, expected: nat)
    requires FrameFits(s) && size == Unsigned(s[..4])
    requires Unsigned(s[4 + size..12 + size]) == Fnv1a64(s[4..4 + size]) && DecodeBody(s[4..4 + size], expected).Ok?
    ensures var e := DecodeBody(s[4..4 + size], expected).value;
            s[..12 + size] == Frame(expected, e) && Encodable(e) && expected < U64
  {
    hide Fnv1a64, BigEndian, Unsigned, DecodeBody, Body;
    DecodeBodyInverse(s[4..4 + size], expected);
    BigEndianOfUnsigned(s[..4]);
    BigEndianOfUnsigned(s[4 + size..12 + size]);
    assert s[..12 + size] == s[..4] + s[4..4 + size] + s[4 + size..12 + size];
  }

  lemma {:induction false} ScanInverse(s: Bytes, expected: nat)
    requires Scan(s, expected).Ok?
    ensures var found := Scan(s, expected).value;
            && AllEncodable(found.entries) && (found.entries != [] ==> expected + |found.entries| <= U64)
            && found.size <= |s| && s[..found.size] == Frames(expected, found.entries)
    decreases |s|
  {
    hide Fnv1a64, Unsigned, DecodeBody, Frame, Encodable;
    if FrameFits(s) {
      var size := Unsigned(s[..4]);
      var body := s[4..4 + size];
      var stored := Unsigned(s[4 + size..12 + size]);
      if stored == Fnv1a64(body) {
        FrameInverse(s, size, expected);
        var e := DecodeBody(body, expected).value;
        var rest := s[12 + size..];
        ScanInverse(rest, expected + 1);
        var found := Scan(rest, expected + 1).value;
        assert ([e] + found.entries)[1..] == found.entries;
        assert s[..12 + size + found.size] == s[..12 + size] + rest[..found.size];
      }
    }
  }

  /** Whatever file loads, the bytes up to the truncation point are exactly the image of what
      was loaded, so loading the truncated file gives the same log. */
  lemma LoadExact(bytes: Bytes)
    requires Load(bytes).Ok?
    ensures var found := Load(bytes).value;
            && found.start >= 1 && AllEncodable(found.entries) && found.size <= |bytes|
            && bytes[..found.size] == Image(found.start, found.entries)
            && (found.start + |found.entries| < U64 ==> Load(bytes[..found.size]) == Load(bytes))
  {
    hide Fnv1a64, BigEndian, Unsigned, Scan, Frames;
    Widths();
    var found := Load(bytes).value;
    ScanInverse(bytes[HEADER_SIZE..], found.start);
    BigEndianOfUnsigned(bytes[4..6]);
    BigEndianOfUnsigned(bytes[6..8]);
    BigEndianOfUnsigned(bytes[8..16]);
    BigEndianOfUnsigned(bytes[16..24]);
    assert bytes[..16] == HeaderPrefix(found.start);
    assert bytes[..HEADER_SIZE] == Header(found.start);
    assert bytes[..found.size] == bytes[..HEADER_SIZE] + bytes[HEADER_SIZE..][..found.size - HEADER_SIZE];
    if found.start + |found.entries| < U64 {
      LoadWholeImage(found.start, found.entries);
    }
  }
}
